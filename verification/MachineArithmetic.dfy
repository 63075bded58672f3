/**
 What the operators of the denotation are, said without their definitions: signed
 values by their range, division by quotient and remainder, shifts by doubling and
 halving, the bitwise operators bit by bit.
 */
module MachineArithmetic {
  import opened Bits
  import opened Exprs

  // ------------------------------------------------------------------ signed values

  /** The signed reading of a value is the number of the signed range that is congruent
      to it. */
  lemma SignedRange(w: nat, a: nat)
    requires w > 0 && a < Pow2(w)
    ensures 0 - Pow2(w - 1) <= Signed(w, a) < Pow2(w - 1)
    ensures Wrap(w, Signed(w, a)) == a
  {
    WrapId(w, a);
    if 2 * a >= Pow2(w) {
      assert Signed(w, a) == a + (-1) * Pow2(w);
      WrapShift(w, a, -1);
    }
  }

  /** There is only one such number. */
  lemma SignedUnique(w: nat, x: int)
    requires w > 0 && 0 - Pow2(w - 1) <= x < Pow2(w - 1)
    ensures Signed(w, Wrap(w, x)) == x
  {
    if x >= 0 {
      WrapId(w, x);
    } else {
      WrapShift(w, x, 1);
      WrapId(w, x + Pow2(w));
    }
  }

  /** Sign extension keeps the signed value. */
  lemma SignExtendKeeps(from: nat, to: nat, a: nat)
    requires 0 < from <= to && a < Pow2(from)
    ensures Signed(to, SignExtend(from, to, a)) == Signed(from, a)
  {
    hide Pow2, Signed, Wrap;
    SignedRange(from, a);
    Pow2Monotone(from - 1, to - 1);
    SignedUnique(to, Signed(from, a));
  }

  /** The signed order is the unsigned order once the sign bit is flipped. */
  lemma SignedOrder(w: nat, x: nat, y: nat)
    requires 0 < w && x < Pow2(w) && y < Pow2(w)
    ensures EvalBin(Slt, w, w, x, y)
         == EvalBin(Ult, w, w, EvalBin(Add, w, w, x, Pow2(w - 1)), EvalBin(Add, w, w, y, Pow2(w - 1)))
    ensures EvalBin(Sle, w, w, x, y)
         == EvalBin(Ule, w, w, EvalBin(Add, w, w, x, Pow2(w - 1)), EvalBin(Add, w, w, y, Pow2(w - 1)))
    ensures EvalBin(Sgt, w, w, x, y) == EvalBin(Slt, w, w, y, x) && EvalBin(Sge, w, w, x, y) == EvalBin(Sle, w, w, y, x)
  {
    hide Wrap, Signed;
    SignFlip(w, x);
    SignFlip(w, y);
  }

  lemma SignFlip(w: nat, x: nat)
    requires 0 < w && x < Pow2(w)
    ensures Wrap(w, x + Pow2(w - 1)) == Signed(w, x) + Pow2(w - 1)
  {
    hide Wrap;
    if 2 * x < Pow2(w) {
      WrapId(w, x + Pow2(w - 1));
    } else {
      WrapShift(w, x + Pow2(w - 1), -1);
      WrapId(w, x + Pow2(w - 1) - Pow2(w));
    }
  }

  // ----------------------------------------------------------------------- division

  /** Division rounds toward zero: the remainder is smaller than the divisor and has the
      sign of the dividend. */
  lemma Truncates(x: int, y: int)
    requires y != 0
    ensures x == y * TruncDiv(x, y) + TruncRem(x, y)
    ensures 0 - Abs(y) < TruncRem(x, y) < Abs(y)
    ensures x >= 0 ==> TruncRem(x, y) >= 0
    ensures x <= 0 ==> TruncRem(x, y) <= 0
  {
    var m, n := Abs(x), Abs(y);
    var q: int := m / n;
    assert m == n * q + m % n;
    NegatedProduct(n, q);
    assert TruncDiv(x, y) == if (x >= 0) == (y > 0) then q else -q;
  }

  lemma NegatedProduct(a: int, b: int)
    ensures (-a) * b == -(a * b) && a * (-b) == -(a * b) && (-a) * (-b) == a * b
  {
  }

  function Abs(x: int): (r: nat)
    ensures r == x || r == -x
  {
    if x >= 0 then x else -x
  }

  lemma UnsignedDivision(w: nat, x: nat, y: nat)
    requires x < Pow2(w) && 0 < y < Pow2(w)
    ensures var q, r := EvalBin(UDiv, w, w, x, y), EvalBin(URem, w, w, x, y);
            x == y * q + r && r < y
  {
    hide Pow2, Wrap;
    FloorShrinks(x, y);
    assert x == y * (x / y) + x % y;
    WrapId(w, x / y);
    WrapId(w, x % y);
  }

  /** Signed division is exact division, except that the least value divided by minus
      one has no quotient of its width. */
  lemma SignedDivision(w: nat, x: nat, y: nat)
    requires 0 < w && x < Pow2(w) && 0 < y < Pow2(w)
    ensures var q, r := EvalBin(SDiv, w, w, x, y), EvalBin(SRem, w, w, x, y);
            Signed(w, r) == TruncRem(Signed(w, x), Signed(w, y))
            && (Signed(w, q) == TruncDiv(Signed(w, x), Signed(w, y))
                <==> !(Signed(w, x) == 0 - Pow2(w - 1) && Signed(w, y) == -1))
  {
    hide Pow2, Wrap, TruncDiv, TruncRem, Signed;
    var sx, sy := Signed(w, x), Signed(w, y);
    SignedRange(w, x);
    SignedRange(w, y);
    assert sy != 0 by { WrapId(w, 0); }
    Truncates(sx, sy);
    QuotientRange(sx, sy, Pow2(w - 1));
    SignedUnique(w, TruncRem(sx, sy));
    if sx == 0 - Pow2(w - 1) && sy == -1 {
      var q := EvalBin(SDiv, w, w, x, y);
      SignedRange(w, q);
    } else {
      SignedUnique(w, TruncDiv(sx, sy));
    }
  }

  lemma QuotientRange(x: int, y: int, m: nat)
    requires 0 - m <= x < m && y != 0 && m > 0
    ensures x == 0 - m && y == -1 ==> TruncDiv(x, y) == m
    ensures !(x == 0 - m && y == -1) ==> 0 - m <= TruncDiv(x, y) < m
  {
    var n := Abs(y);
    var q: int := Abs(x) / n;
    assert TruncDiv(x, y) == if (x >= 0) == (y > 0) then q else -q;
    FloorShrinks(Abs(x), n);
    if n > 1 {
      assert Abs(x) == q * n + Abs(x) % n;
      MulMonotone(2, n, q);
    } else {
      assert q == Abs(x);
    }
  }

  // ------------------------------------------------------------------------- shifts

  lemma ShiftLeftDoubles(w: nat, x: nat, b: nat)
    requires x < Pow2(w)
    ensures EvalBin(Shl, w, w, x, 0) == x
    ensures EvalBin(Shl, w, w, x, b + 1) == Wrap(w, 2 * EvalBin(Shl, w, w, x, b))
  {
    hide Wrap, Pow2;
    Doubling(x, b);
    WrapId(w, x);
    var y := x * Pow2(b);
    WrapAdd(w, y, y);
    WrapAdd(w, y, Wrap(w, y));
  }

  lemma Doubling(x: nat, b: nat)
    ensures x * Pow2(0) == x && x * Pow2(b + 1) == x * Pow2(b) + x * Pow2(b)
  {
    assert Pow2(b + 1) == Pow2(b) + Pow2(b);
  }

  lemma ShiftRightHalves(w: nat, x: nat, b: nat)
    requires x < Pow2(w)
    ensures EvalBin(LShr, w, w, x, 0) == x
    ensures EvalBin(LShr, w, w, x, b + 1) == EvalBin(LShr, w, w, x, b) / 2
  {
    hide Wrap;
    assert ShiftRight(x, 0) == x;
    WrapId(w, x);
    FloorShrinks(x, Pow2(b));
    FloorShrinks(x, Pow2(b + 1));
    WrapId(w, ShiftRight(x, b));
    WrapId(w, ShiftRight(x, b + 1));
    DivDiv(x, Pow2(b), 2);
  }

  /** The arithmetic shift halves the signed value, rounding down. */
  lemma ArithmeticShiftHalves(w: nat, x: nat, b: nat)
    requires 0 < w && x < Pow2(w)
    ensures EvalBin(AShr, w, w, x, 0) == x
    ensures var y := Signed(w, EvalBin(AShr, w, w, x, b));
            2 * Signed(w, EvalBin(AShr, w, w, x, b + 1)) <= y <= 2 * Signed(w, EvalBin(AShr, w, w, x, b + 1)) + 1
  {
    hide Wrap, Signed;
    var s := Signed(w, x);
    SignedRange(w, x);
    assert s / Pow2(0) == s;
    FloorShrinks(s, Pow2(b));
    FloorShrinks(s, Pow2(b + 1));
    SignedUnique(w, s / Pow2(b));
    SignedUnique(w, s / Pow2(b + 1));
    DivDiv(s, Pow2(b), 2);
  }

  lemma FloorShrinks(x: int, m: nat)
    requires m > 0
    ensures x >= 0 ==> 0 <= x / m <= x
    ensures x < 0 ==> x <= x / m < 0
  {
    if x >= 0 {
      FloorBelow(x, x / m, m);
    } else {
      FloorAbove(x, x / m, m);
    }
  }

  lemma FloorBelow(x: nat, q: int, m: nat)
    requires m > 0 && q * m <= x < q * m + m
    ensures 0 <= q <= x
  {
    if q < 0 {
      MulMonotone(q, -1, m);
    } else {
      MulMonotone(1, m, q);
    }
  }

  lemma FloorAbove(x: int, q: int, m: nat)
    requires x < 0 && m > 0 && q * m <= x < q * m + m
    ensures x <= q < 0
  {
    if q >= 0 {
      MulMonotone(0, q, m);
    } else {
      MulMonotone(1, m, -q - 1);
      NegatedProduct(q + 1, m);
    }
  }

  // --------------------------------------------------------------------------- bits

  function Bit(a: nat, k: nat): bool {
    (a / Pow2(k)) % 2 == 1
  }

  lemma BitIsExtract(a: nat, k: nat)
    ensures Bit(a, k) <==> ExtractBits(k, 1, a) == 1
  {
    assert Pow2(1) == 2;
  }

  lemma BitStep(a: nat, k: nat)
    requires k > 0
    ensures Bit(a, k) == Bit(a / 2, k - 1)
  {
    DivDiv(a, 2, Pow2(k - 1));
  }

  lemma LowestBit(a: nat)
    ensures Bit(a, 0) <==> a % 2 == 1
  {
    assert a / Pow2(0) == a;
  }

  /** Bit by bit, the bitwise operators are the Boolean connectives. */
  lemma {:induction false} BitwiseBits(op: BitOp, w: nat, a: nat, b: nat, k: nat)
    requires k < w
    ensures Bit(Bitwise(op, w, a, b), k) == OneBit(op, Bit(a, k), Bit(b, k))
  {
    hide Bit;
    if k == 0 {
      LowestBit(Bitwise(op, w, a, b));
      LowestBit(a);
      LowestBit(b);
    } else {
      BitwiseBits(op, w - 1, a / 2, b / 2, k - 1);
      BitStep(Bitwise(op, w, a, b), k);
      BitStep(a, k);
      BitStep(b, k);
    }
  }

  lemma ComplementSum(w: nat, a: nat)
    requires a < Pow2(w)
    ensures a + Complement(w, a) == AllOnes(w)
  {
    WrapShift(w, -1 - a, 1);
    WrapId(w, Pow2(w) - 1 - a);
  }

  /** An extract moves bits down ... */
  lemma ExtractedBits(off: nat, w: nat, a: nat, k: nat)
    requires k < w
    ensures Bit(ExtractBits(off, w, a), k) == Bit(a, off + k)
  {
    hide Pow2, ExtractBits, Bit;
    BitIsExtract(ExtractBits(off, w, a), k);
    BitIsExtract(a, off + k);
    ExtractTwice(off, w, a, k);
  }

  lemma ExtractTwice(off: nat, w: nat, a: nat, k: nat)
    requires k < w
    ensures ExtractBits(k, 1, ExtractBits(off, w, a)) == ExtractBits(off + k, 1, a)
  {
    hide Pow2, ExtractBits;
    ExtractLow(w, ShiftRight(a, off), k);
    ShiftTwice(a, off, w, k);
  }

  lemma ExtractLow(w: nat, s: nat, k: nat)
    requires k < w
    ensures ExtractBits(k, 1, Wrap(w, s)) == ExtractBits(k, 1, s)
  {
    hide Pow2, ExtractBits;
    DivNonNegative(s, Pow2(w));
    assert ConcatBits(w, s / Pow2(w), Wrap(w, s)) == s;
    ExtractConcatLow(w, s / Pow2(w), Wrap(w, s), k, 1);
  }

  lemma ShiftTwice(a: nat, off: nat, w: nat, k: nat)
    ensures ExtractBits(off, w, a) == Wrap(w, ShiftRight(a, off))
    ensures ExtractBits(k, 1, ShiftRight(a, off)) == ExtractBits(off + k, 1, a)
  {
    hide Pow2, Wrap;
    Pow2Add(off, k);
    DivDiv(a, Pow2(off), Pow2(k));
  }

  /** ... and a concatenation has the bits of its low part below those of its high part. */
  lemma ConcatenatedBits(wr: nat, a: nat, b: nat, k: nat)
    requires b < Pow2(wr)
    ensures Bit(ConcatBits(wr, a, b), k) == if k < wr then Bit(b, k) else Bit(a, k - wr)
  {
    hide Pow2, ConcatBits, ExtractBits, Bit;
    BitIsExtract(ConcatBits(wr, a, b), k);
    if k < wr {
      ExtractConcatLow(wr, a, b, k, 1);
      BitIsExtract(b, k);
    } else {
      ExtractConcatHigh(wr, a, b, k, 1);
      BitIsExtract(a, k - wr);
    }
  }

  /** Sums, differences and products are exact up to multiples of two to the width. */
  lemma ModularArithmetic(w: nat, x: nat, y: nat)
    ensures (EvalBin(Add, w, w, x, y) - (x + y)) % Pow2(w) == 0
    ensures (EvalBin(Sub, w, w, x, y) - (x - y)) % Pow2(w) == 0
    ensures (EvalBin(Mul, w, w, x, y) - x * y) % Pow2(w) == 0
  {
    hide Pow2;
    WrapCongruent(w, x + y);
    WrapCongruent(w, x - y);
    WrapCongruent(w, x * y);
  }

  lemma WrapCongruent(w: nat, x: int)
    ensures (Wrap(w, x) - x) % Pow2(w) == 0
  {
    hide Pow2;
    var m := Pow2(w);
    assert Wrap(w, x) - x == 0 + (-(x / m)) * m;
    ModShift(0, -(x / m), m);
  }
}
