/**
 Fixed-width machine arithmetic on mathematical integers.

 A value of width `w` is a natural number below `Pow2(w)`; widths are unbounded,
 as they are for the arbitrary-precision constants of the source.
 */
module Bits {

  function Pow2(n: nat): (p: nat)
    ensures p >= 1
  {
    if n == 0 then 1 else 2 * Pow2(n - 1)
  }

  /** Reduction of any integer to `w` bits. */
  function Wrap(w: nat, x: int): (r: nat)
    ensures r < Pow2(w)
  {
    x % Pow2(w)
  }

  /** The two's-complement reading of a `w`-bit value. */
  function Signed(w: nat, a: nat): int {
    if 2 * a < Pow2(w) then a else a - Pow2(w)
  }

  function Complement(w: nat, a: nat): (r: nat)
    ensures r < Pow2(w)
  {
    Wrap(w, -1 - a)
  }

  function ShiftRight(a: nat, off: nat): nat {
    DivNonNegative(a, Pow2(off));
    a / Pow2(off)
  }

  function ExtractBits(off: nat, w: nat, a: nat): (r: nat)
    ensures r < Pow2(w)
  {
    Wrap(w, ShiftRight(a, off))
  }

  function ConcatBits(wr: nat, a: nat, b: nat): nat {
    a * Pow2(wr) + b
  }

  function MulBits(w: nat, a: nat, b: nat): (r: nat)
    ensures r < Pow2(w)
  {
    Wrap(w, a * b)
  }

  function ShlBits(w: nat, a: nat, b: nat): (r: nat)
    ensures r < Pow2(w)
  {
    Wrap(w, a * Pow2(b))
  }

  function AShrBits(w: nat, a: nat, b: nat): (r: nat)
    ensures r < Pow2(w)
  {
    Wrap(w, Signed(w, a) / Pow2(b))
  }

  function SignExtend(from: nat, to: nat, a: nat): (r: nat)
    ensures r < Pow2(to)
  {
    Wrap(to, Signed(from, a))
  }

  /** Division rounding toward zero, as machine division does. A zero divisor,
      which the source forbids, leaves the dividend unchanged. */
  function TruncDiv(x: int, y: int): int {
    if y == 0 then x
    else if x >= 0 && y > 0 then x / y
    else if x >= 0 then -(x / -y)
    else if y > 0 then -(-x / y)
    else -x / -y
  }

  /** The remainder that goes with `TruncDiv`; zero for a zero divisor. */
  function TruncRem(x: int, y: int): int {
    if y == 0 then 0 else x - y * TruncDiv(x, y)
  }

  datatype BitOp = BitAnd | BitOr | BitXor

  function OneBit(op: BitOp, a: bool, b: bool): bool {
    match op
    case BitAnd => a && b
    case BitOr => a || b
    case BitXor => a != b
  }

  /** Bitwise operators, one bit at a time from the least significant one. */
  function Bitwise(op: BitOp, w: nat, a: nat, b: nat): (r: nat)
    ensures r < Pow2(w)
  {
    if w == 0 then 0
    else
      (if OneBit(op, a % 2 == 1, b % 2 == 1) then 1 else 0)
      + 2 * Bitwise(op, w - 1, a / 2, b / 2)
  }

  function AllOnes(w: nat): nat {
    Pow2(w) - 1
  }

  function FromBool(b: bool): (r: nat)
    ensures r < 2
  {
    if b then 1 else 0
  }

  // ---------------------------------------------------------------- division

  lemma MulMonotone(a: int, b: int, m: nat)
    requires a <= b
    ensures a * m <= b * m
  {
  }

  lemma MulAssociates(a: int, b: int, c: int)
    ensures a * (b * c) == a * b * c
  {
  }

  lemma DivNonNegative(a: nat, m: nat)
    requires m > 0
    ensures a / m >= 0
  {
    if a / m < 0 {
      MulMonotone(a / m, -1, m);
    }
  }

  lemma DivModUnique(x: int, q: int, r: int, m: nat)
    requires 0 <= r < m
    requires x == q * m + r
    ensures x / m == q && x % m == r
  {
    var q' := x / m;
    if q' < q {
      MulMonotone(q' + 1, q, m);
    } else if q < q' {
      MulMonotone(q + 1, q', m);
    }
  }

  lemma ModShift(x: int, k: int, m: nat)
    requires m > 0
    ensures (x + k * m) % m == x % m
    ensures (x + k * m) / m == x / m + k
  {
    assert x + k * m == (x / m + k) * m + x % m;
    DivModUnique(x + k * m, x / m + k, x % m, m);
  }

  lemma MixedRadix(q: int, d: int, r: int, m: nat, n: nat)
    requires 0 <= d < n && 0 <= r < m
    ensures (q * n + d) * m + r == q * (m * n) + (d * m + r)
    ensures 0 <= d * m + r < m * n
  {
    assert (q * n + d) * m == q * (m * n) + d * m;
    MulMonotone(d, n - 1, m);
    assert (n - 1) * m == m * n - m;
  }

  lemma DivDiv(x: int, m: nat, n: nat)
    requires m > 0 && n > 0
    ensures m * n > 0
    ensures x / m / n == x / (m * n)
    ensures x % (m * n) == (x / m) % n * m + x % m
  {
    var a, r := x / m, x % m;
    var q, d := a / n, a % n;
    MixedRadix(q, d, r, m, n);
    DivModUnique(x, q, d * m + r, m * n);
  }

  // ---------------------------------------------------------------- wrapping

  lemma {:induction false} Pow2Add(a: nat, b: nat)
    ensures Pow2(a + b) == Pow2(a) * Pow2(b)
  {
    if a == 0 {
    } else {
      Pow2Add(a - 1, b);
      assert Pow2(a + b) == 2 * Pow2(a - 1 + b);
      assert 2 * (Pow2(a - 1) * Pow2(b)) == 2 * Pow2(a - 1) * Pow2(b);
    }
  }

  lemma {:induction false} Pow2Monotone(a: nat, b: nat)
    requires a <= b
    ensures Pow2(a) <= Pow2(b)
  {
    if a < b {
      Pow2Monotone(a, b - 1);
    }
  }

  lemma WrapId(w: nat, x: int)
    requires 0 <= x < Pow2(w)
    ensures Wrap(w, x) == x
  {
    DivModUnique(x, 0, x, Pow2(w));
  }

  lemma WrapShift(w: nat, x: int, k: int)
    ensures Wrap(w, x + k * Pow2(w)) == Wrap(w, x)
  {
    ModShift(x, k, Pow2(w));
  }

  lemma WrapAdd(w: nat, x: int, y: int)
    ensures Wrap(w, Wrap(w, x) + y) == Wrap(w, x + y)
    ensures Wrap(w, y + Wrap(w, x)) == Wrap(w, x + y)
  {
    var m := Pow2(w);
    var k := x / m;
    assert x == k * m + x % m;
    assert x + y == (x % m + y) + k * m;
    ModShift(x % m + y, k, m);
  }

  lemma WrapSub(w: nat, x: int, y: int)
    ensures Wrap(w, y - Wrap(w, x)) == Wrap(w, y - x)
    ensures Wrap(w, Wrap(w, x) - y) == Wrap(w, x - y)
  {
    var m := Pow2(w);
    var k := x / m;
    assert x == k * m + x % m;
    assert (-k) * m == -(k * m);
    assert y - x == (y - x % m) + (-k) * m;
    ModShift(y - x % m, -k, m);
    WrapAdd(w, x, -y);
  }

  /** An addition or subtraction around a wrapped one regroups freely: the sums of
      the source's `k` rules, one line each. */
  lemma RegroupAdd(w: nat, k: int, x: int, y: int)
    ensures Wrap(w, k + Wrap(w, x + y)) == Wrap(w, Wrap(w, k + x) + y)
    ensures Wrap(w, k + Wrap(w, x - y)) == Wrap(w, Wrap(w, k - y) + x)
    ensures Wrap(w, k + Wrap(w, x + y)) == Wrap(w, x + Wrap(w, k + y))
    ensures Wrap(w, k + Wrap(w, x - y)) == Wrap(w, x + Wrap(w, k - y))
    ensures Wrap(w, k + Wrap(w, x - y)) == Wrap(w, Wrap(w, k + x) - y)
  {
    hide Wrap, Pow2;
    WrapAdd(w, x + y, k);
    WrapAdd(w, x - y, k);
    WrapAdd(w, k + x, y);
    WrapAdd(w, k + y, x);
    WrapAdd(w, k - y, x);
    WrapSub(w, k + x, y);
  }

  lemma RegroupSub(w: nat, k: int, x: int, y: int)
    ensures Wrap(w, k - Wrap(w, x + y)) == Wrap(w, Wrap(w, k - x) - y)
    ensures Wrap(w, Wrap(w, x - y) - k) == Wrap(w, x - Wrap(w, k + y))
    ensures Wrap(w, Wrap(w, x + y) - k) == Wrap(w, x - Wrap(w, k - y))
    ensures Wrap(w, k - Wrap(w, x - y)) == Wrap(w, Wrap(w, k - x) + y)
  {
    hide Wrap, Pow2;
    WrapSub(w, x + y, k);
    WrapSub(w, x - y, k);
    WrapSub(w, k - x, y);
    WrapSub(w, k + y, x);
    WrapSub(w, k - y, x);
    WrapAdd(w, k - x, y);
  }

  /** The same with a constant that changes sign. */
  lemma RegroupNegated(w: nat, c: int, x: int, y: int)
    ensures Wrap(w, Wrap(w, 0 - c) + x) == Wrap(w, x - c)
    ensures Wrap(w, Wrap(w, 0 - c) + Wrap(w, x + y)) == Wrap(w, x + Wrap(w, y - c))
    ensures Wrap(w, Wrap(w, 0 - c) + Wrap(w, x - y)) == Wrap(w, x - Wrap(w, c + y))
    ensures Wrap(w, Wrap(w, 0 - c) + Wrap(w, x + y)) == Wrap(w, x - Wrap(w, c - y))
    ensures Wrap(w, c + Wrap(w, x - y)) == Wrap(w, x - Wrap(w, y - c))
  {
    hide Wrap, Pow2;
    WrapAdd(w, 0 - c, x);
    WrapAdd(w, 0 - c, Wrap(w, x + y));
    WrapAdd(w, 0 - c, Wrap(w, x - y));
    WrapAdd(w, x + y, 0 - c);
    WrapAdd(w, x - y, 0 - c);
    WrapAdd(w, x - y, c);
    WrapAdd(w, y - c, x);
    WrapSub(w, c + y, x);
    WrapSub(w, c - y, x);
    WrapSub(w, y - c, x);
  }

  lemma WrapMultiple(narrow: nat, wide: nat, x: int, k: int)
    requires narrow <= wide
    ensures Wrap(narrow, x + k * Pow2(wide)) == Wrap(narrow, x)
  {
    Pow2Add(wide - narrow, narrow);
    MulAssociates(k, Pow2(wide - narrow), Pow2(narrow));
    WrapShift(narrow, x, k * Pow2(wide - narrow));
  }

  lemma WrapWrap(narrow: nat, wide: nat, x: int)
    requires narrow <= wide
    ensures Wrap(narrow, Wrap(wide, x)) == Wrap(narrow, x)
  {
    var k := x / Pow2(wide);
    assert x == Wrap(wide, x) + k * Pow2(wide);
    WrapMultiple(narrow, wide, Wrap(wide, x), k);
  }

  // ------------------------------------------------------- extract and concat

  lemma ExtractAll(w: nat, a: nat)
    requires a < Pow2(w)
    ensures ExtractBits(0, w, a) == a
  {
    assert a / Pow2(0) == a;
    WrapId(w, a);
  }

  lemma ConcatRange(wl: nat, wr: nat, a: nat, b: nat)
    requires a < Pow2(wl) && b < Pow2(wr)
    ensures ConcatBits(wr, a, b) < Pow2(wl + wr)
  {
    Pow2Add(wl, wr);
    MulMonotone(a, Pow2(wl) - 1, Pow2(wr));
    assert (Pow2(wl) - 1) * Pow2(wr) == Pow2(wl) * Pow2(wr) - Pow2(wr);
  }

  lemma ExtractConcatHigh(wr: nat, a: nat, b: nat, off: nat, w: nat)
    requires b < Pow2(wr) && wr <= off
    ensures ExtractBits(off, w, ConcatBits(wr, a, b)) == ExtractBits(off - wr, w, a)
  {
    var x := ConcatBits(wr, a, b);
    Pow2Add(wr, off - wr);
    DivDiv(x, Pow2(wr), Pow2(off - wr));
    DivModUnique(x, a, b, Pow2(wr));
  }

  /** A high part that is a multiple of `Pow2(off)` survives the shift. */
  lemma ShiftConcat(wr: nat, a: nat, b: nat, off: nat)
    requires b < Pow2(wr) && off <= wr
    ensures ShiftRight(ConcatBits(wr, a, b), off) == ConcatBits(wr - off, a, ShiftRight(b, off))
  {
    Pow2Add(wr - off, off);
    MulAssociates(a, Pow2(wr - off), Pow2(off));
    ModShift(b, a * Pow2(wr - off), Pow2(off));
  }

  lemma WrapLow(w: nat, wr: nat, a: nat, b: nat)
    requires w <= wr
    ensures Wrap(w, ConcatBits(wr, a, b)) == Wrap(w, b)
  {
    WrapMultiple(w, wr, b, a);
  }

  lemma ExtractConcatLow(wr: nat, a: nat, b: nat, off: nat, w: nat)
    requires b < Pow2(wr) && off + w <= wr
    ensures ExtractBits(off, w, ConcatBits(wr, a, b)) == ExtractBits(off, w, b)
  {
    ShiftConcat(wr, a, b, off);
    WrapLow(w, wr - off, a, ShiftRight(b, off));
  }

  lemma ShiftRange(wr: nat, b: nat, off: nat)
    requires b < Pow2(wr) && off <= wr
    ensures ShiftRight(b, off) < Pow2(wr - off)
  {
    Pow2Add(wr - off, off);
    if b / Pow2(off) >= Pow2(wr - off) {
      MulMonotone(Pow2(wr - off), b / Pow2(off), Pow2(off));
    }
  }

  lemma ExtractConcatSplit(wr: nat, a: nat, b: nat, off: nat, w: nat)
    requires b < Pow2(wr) && off <= wr <= off + w
    ensures ExtractBits(off, w, ConcatBits(wr, a, b))
         == ConcatBits(wr - off, ExtractBits(0, w - (wr - off), a), ExtractBits(off, wr - off, b))
  {
    var low, high := wr - off, w - (wr - off);
    var b' := ShiftRight(b, off);
    ShiftConcat(wr, a, b, off);
    ShiftRange(wr, b, off);
    WrapConcat(low, high, a, b');
    WrapId(low, b');
    calc {
      ExtractBits(off, w, ConcatBits(wr, a, b));
      Wrap(low + high, ConcatBits(low, a, b'));
      ConcatBits(low, Wrap(high, a), b');
      { assert Wrap(high, a) == ExtractBits(0, high, a) by { assert a / Pow2(0) == a; } }
      ConcatBits(low, ExtractBits(0, high, a), b');
    }
  }

  lemma WrapConcat(low: nat, high: nat, a: nat, b: nat)
    requires b < Pow2(low)
    ensures Wrap(low + high, ConcatBits(low, a, b)) == ConcatBits(low, Wrap(high, a), b)
  {
    var x := ConcatBits(low, a, b);
    Pow2Add(low, high);
    DivModUnique(x, a, b, Pow2(low));
    DivDiv(x, Pow2(low), Pow2(high));
  }

  lemma ExtractMerge(x: nat, off: nat, wl: nat, wr: nat)
    ensures ConcatBits(wr, ExtractBits(off + wr, wl, x), ExtractBits(off, wr, x))
         == ExtractBits(off, wl + wr, x)
  {
    var y := ShiftRight(x, off);
    Pow2Add(off, wr);
    Pow2Add(wr, wl);
    DivDiv(x, Pow2(off), Pow2(wr));
    DivDiv(y, Pow2(wr), Pow2(wl));
  }

  /** Constants are shifted arithmetically before truncation; below the sign bits
      that is the same as a logical shift. */
  lemma ExtractBySignedShift(kw: nat, off: nat, w: nat, a: nat)
    requires off + w <= kw
    ensures Wrap(w, Signed(kw, a) / Pow2(off)) == ExtractBits(off, w, a)
  {
    if 2 * a >= Pow2(kw) {
      ShiftBelow(a, kw, off);
      WrapMultiple(w, kw - off, ShiftRight(a, off), -1);
      assert Signed(kw, a) == a - Pow2(kw);
    }
  }

  lemma ShiftBelow(a: nat, kw: nat, off: nat)
    requires off <= kw
    ensures (a - Pow2(kw)) / Pow2(off) == ShiftRight(a, off) + (-1) * Pow2(kw - off)
  {
    var k := 0 - Pow2(kw - off);
    Pow2Add(kw - off, off);
    assert k * Pow2(off) == 0 - Pow2(kw);
    ModShift(a, k, Pow2(off));
  }

  lemma SignExtendTruncates(from: nat, to: nat, a: nat)
    requires from <= to && a < Pow2(from)
    ensures Wrap(from, SignExtend(from, to, a)) == a
  {
    WrapWrap(from, to, Signed(from, a));
    WrapId(from, a);
    if 2 * a >= Pow2(from) {
      assert Signed(from, a) == a + (-1) * Pow2(from);
      WrapShift(from, a, -1);
    }
  }

  // ------------------------------------------------------------ bitwise laws

  lemma {:induction false} BitwiseCommutes(op: BitOp, w: nat, a: nat, b: nat)
    ensures Bitwise(op, w, a, b) == Bitwise(op, w, b, a)
  {
    if w > 0 {
      BitwiseCommutes(op, w - 1, a / 2, b / 2);
    }
  }

  lemma {:induction false} BitwiseWithZero(w: nat, a: nat)
    requires a < Pow2(w)
    ensures Bitwise(BitAnd, w, a, 0) == 0
    ensures Bitwise(BitOr, w, a, 0) == a
    ensures Bitwise(BitXor, w, a, 0) == a
  {
    if w > 0 {
      BitwiseWithZero(w - 1, a / 2);
    }
  }

  lemma {:induction false} BitwiseWithOnes(w: nat, a: nat)
    requires a < Pow2(w)
    ensures Bitwise(BitAnd, w, a, AllOnes(w)) == a
    ensures Bitwise(BitOr, w, a, AllOnes(w)) == AllOnes(w)
  {
    if w > 0 {
      assert AllOnes(w) / 2 == AllOnes(w - 1) && AllOnes(w) % 2 == 1;
      BitwiseWithOnes(w - 1, a / 2);
    }
  }

  /** At width one the bitwise operators are the Boolean connectives. */
  lemma BitwiseOneBit(op: BitOp, a: nat, b: nat)
    requires a < 2 && b < 2
    ensures Pow2(1) == 2
    ensures Bitwise(op, 1, a, b) == FromBool(OneBit(op, a == 1, b == 1))
  {
    assert Bitwise(op, 0, a / 2, b / 2) == 0;
  }
}
