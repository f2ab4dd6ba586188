/** ASH and ASHC (cpu.cpp): the bit-by-bit shifter against arithmetic on signed numbers. */
module Shifter {
  import opened Bits
  import opened Division
  import opened Arithmetic

  type Long = x: int | 0 <= x < 0x1_0000_0000

  function Range(is32: bool): int {
    if is32 then 0x1_0000_0000 else 0x1_0000
  }

  /** A 16- or 32-bit pattern read as a signed number. */
  function Value(x: Long, is32: bool): int {
    if x < Range(is32) / 2 then x else x - Range(is32)
  }

  /** x modulo 2^16 or 2^32. */
  function Trim(x: int, is32: bool): (r: Long)
    ensures r < Range(is32)
  {
    if is32 then x % 0x1_0000_0000 else x % 0x1_0000
  }

  /** The bit just above the top one. */
  predicate BitAbove(x: int, is32: bool) {
    if is32 then x / 0x1_0000_0000 % 2 == 1 else x / 0x1_0000 % 2 == 1
  }

  predicate Fits(x: int, is32: bool) {
    -(Range(is32) / 2) <= x < Range(is32) / 2
  }

  /** Shift `x` by a 6-bit count: 0..31 is to the left, 32..63 is right by 64 - count. */
  function Shifted(x: Long, count: nat, is32: bool): int
    requires count < 64
  {
    var v := Value(x, is32);
    if count < 32 then v * Pow2(count) else v / Pow2(64 - count)
  }

  /** The bit that leaves last: just above the top on the left, below bit 0 on the right. */
  predicate LastOut(x: Long, count: nat, is32: bool)
    requires count < 64
  {
    var v := Value(x, is32);
    if count == 0 then false
    else if count < 32 then BitAbove(v * Pow2(count), is32)
    else v / Pow2(64 - count - 1) % 2 == 1
  }

  function ShiftFlags(x: Long, count: nat, is32: bool): Flags
    requires count < 64
  {
    var r := Trim(Shifted(x, count, is32), is32);
    Flags(Value(r, is32) < 0, r == 0, !Fits(Shifted(x, count, is32), is32), LastOut(x, count, is32))
  }

  /** `value & sign_mask` on a 32-bit register. */
  predicate SignBit(x: Long, is32: bool) {
    Trim(x, is32) >= Range(is32) / 2
  }

  /** `uint64_t(value) | sign_extend`. */
  function SignExtend(x: Long, is32: bool): int {
    Trim(x, is32) + 0x1_0000_0000_0000_0000 - Range(is32)
  }

  // --- One bit to the left ---

  lemma DoubleStep(value: Long, w: int, is32: bool)
    requires Trim(value, is32) == Trim(w, is32)
    ensures Trim(value * 2 % 0x1_0000_0000, is32) == Trim(2 * w, is32)
  {
    if is32 {
      MultipleVanishes(2 * value, 2 * (w / 0x1_0000_0000));
    } else {
      LowHalf(2 * value);
      DoubleModulo(value);
      DoubleModulo(w);
    }
  }

  lemma DoubleModulo(x: int)
    ensures 2 * x % 0x1_0000 == 2 * (x % 0x1_0000) % 0x1_0000
  {
    var q, r := x / 0x1_0000, 2 * (x % 0x1_0000);
    QuotientIs(2 * x, 0x1_0000, 2 * q + r / 0x1_0000, r % 0x1_0000);
  }

  /** While the number fits, doubling flips the sign bit exactly when it stops fitting. */
  lemma SignFlips(w: int, is32: bool)
    requires Fits(w, is32)
    ensures (Trim(2 * w, is32) >= Range(is32) / 2) == (w < 0) <==> Fits(2 * w, is32)
  {
  }

  /** The bit that doubling moves out of a number of twice `half`. */
  lemma DoubledBit(w: int, half: int)
    requires half > 0
    ensures 2 * w / (2 * half) % 2 == 1 <==> w % (2 * half) >= half
  {
    var q, r := w / (2 * half), w % (2 * half);
    var bit := if r >= half then 1 else 0;
    QuotientIs(2 * w, 2 * half, 2 * q + bit, 2 * r - bit * (2 * half));
  }

  lemma CarryOnTheLeft(value: Long, w: int, is32: bool)
    requires Trim(value, is32) == Trim(w, is32)
    ensures SignBit(value, is32) <==> BitAbove(2 * w, is32)
  {
    if is32 {
      DoubledBit(w, 0x8000_0000);
    } else {
      DoubledBit(w, 0x8000);
    }
  }

  /** Multiplying the unsigned pattern is as good as multiplying the signed number. */
  lemma PatternTimes(x: Long, p: nat, is32: bool)
    requires x < Range(is32)
    ensures Trim(x * p % 0x1_0000_0000, is32) == Trim(Value(x, is32) * p, is32)
  {
    var v := Value(x, is32);
    var m := if v < 0 then p else 0;
    assert x * p == v * p + Range(is32) * m by {
      if v < 0 {
        assert (v + Range(is32)) * p == v * p + Range(is32) * p;
      }
    }
    MultipleTrimmed(v * p, m, is32);
  }

  lemma MultipleTrimmed(y: int, m: nat, is32: bool)
    ensures Trim((y + Range(is32) * m) % 0x1_0000_0000, is32) == Trim(y, is32)
  {
    if is32 {
      MultipleVanishes(y, m);
    } else {
      LowHalf(y + 0x1_0000 * m);
      QuotientIs(y + 0x1_0000 * m, 0x1_0000, y / 0x1_0000 + m, y % 0x1_0000);
    }
  }

  lemma LowHalf(z: int)
    ensures z % 0x1_0000_0000 % 0x1_0000 == z % 0x1_0000
  {
    var q, r := z / 0x1_0000_0000, z % 0x1_0000_0000;
    QuotientIs(z, 0x1_0000, q * 0x1_0000 + r / 0x1_0000, r % 0x1_0000);
  }

  /** C is read off before the loop: the sign bit of the pattern shifted one place less. */
  lemma CarryLeft(x: Long, count: nat, is32: bool)
    requires x < Range(is32) && 0 < count < 32
    ensures SignBit(x * Pow2(count - 1) % 0x1_0000_0000, is32) <==> LastOut(x, count, is32)
  {
    hide Trim, Value, SignBit, BitAbove;
    var v := Value(x, is32);
    PatternTimes(x, Pow2(count - 1), is32);
    CarryOnTheLeft(x * Pow2(count - 1) % 0x1_0000_0000, v * Pow2(count - 1), is32);
    assert 2 * (v * Pow2(count - 1)) == v * Pow2(count);
  }

  /** One round of the loop: V is set now or was set before. */
  lemma LoopRound(value: Long, w: int, is32: bool)
    requires Trim(value, is32) == Trim(w, is32)
    ensures var next := value * 2 % 0x1_0000_0000;
            Trim(next, is32) == Trim(2 * w, is32)
            && (!Fits(2 * w, is32) <==> !Fits(w, is32) || SignBit(next, is32) != (w < 0))
  {
    DoubleStep(value, w, is32);
    if Fits(w, is32) {
      SignFlips(w, is32);
    }
  }

  // --- To the right ---

  lemma HalfOfQuotient(v: int, a: int)
    requires a > 0
    ensures v / a / 2 == v / (2 * a)
  {
    DivMod(v, a);
    HalfSplit(v, a, v / a, v % a);
  }

  lemma HalfSplit(v: int, a: int, q: int, r: int)
    requires a > 0 && v == q * a + r && 0 <= r < a
    ensures v / (2 * a) == q / 2
  {
    var h, b := q / 2, q % 2;
    assert q == 2 * h + b;
    HalvesOf(h, b, a);
    QuotientIs(v, 2 * a, h, (if b == 0 then 0 else a) + r);
  }

  lemma HalvesOf(h: int, b: int, a: int)
    requires b == 0 || b == 1
    ensures (2 * h + b) * a == h * (2 * a) + if b == 0 then 0 else a
  {
  }

  lemma Pow2Divides(k: nat)
    requires k <= 32
    ensures exists m: nat :: Pow2(k) * m == 0x1_0000_0000
    decreases 32 - k
  {
    assert Pow2(k + 1) == 2 * Pow2(k);
    hide Pow2;
    if k == 32 {
      Pow2At32();
      assert Pow2(k) * 1 == 0x1_0000_0000;
    } else {
      Pow2Divides(k + 1);
      var m: nat :| Pow2(k + 1) * m == 0x1_0000_0000;
      TwiceTimes(Pow2(k), m);
      assert Pow2(k) * (2 * m) == 0x1_0000_0000;
    }
  }

  lemma TwiceTimes(p: int, m: int)
    ensures 2 * p * m == p * (2 * m)
  {
  }

  lemma Pow2At32()
    ensures Pow2(32) == 0x1_0000_0000
  {
    assert Pow2(8) == 0x100;
    Pow2Sum(8, 8);
    Pow2Sum(16, 16);
  }

  lemma QuotientShift(v: int, a: int, m: int)
    requires a > 0
    ensures (v + m * a) / a == v / a + m
  {
    QuotientIs(v + m * a, a, v / a + m, v % a);
  }

  lemma Product(a: nat, b: nat)
    ensures a * b >= 0
  {
  }

  lemma FloorBounds(v: int, a: int, q: int, r: int)
    requires v == q * a + r && 0 <= r < a
    ensures if q >= 0 then q <= v else v <= q
  {
    if q >= 0 {
      Product(a - 1, q);
      assert q * a == (a - 1) * q + q;
    } else {
      var u := -q - 1;
      Product(a - 1, u);
      assert q * a == -((a - 1) * u) - u - a;
    }
  }

  /** Flooring division by a positive number keeps the sign and does not grow. */
  lemma QuotientSign(v: int, a: int)
    requires a > 0
    ensures if v < 0 then v <= v / a < 0 else 0 <= v / a <= v
  {
    FloorBounds(v, a, v / a, v % a);
  }

  /** A negative number, sign-extended to 64 bits and shifted right logically, is in its low
      32 bits the number shifted right arithmetically. */
  lemma ExtendedQuotient(v: int, k: nat)
    requires k <= 31
    ensures (v + 0x1_0000_0000_0000_0000) / Pow2(k) % 0x1_0000_0000 == v / Pow2(k) % 0x1_0000_0000
  {
    Pow2Divides(k);
    var m: nat :| Pow2(k) * m == 0x1_0000_0000;
    var p := Pow2(k);
    var big := m * 0x1_0000_0000;
    assert big * p == 0x1_0000_0000_0000_0000;
    QuotientShift(v, p, big);
    MultipleVanishes(v / p, m);
  }

  lemma MultipleVanishes(x: int, m: int)
    ensures (x + m * 0x1_0000_0000) % 0x1_0000_0000 == x % 0x1_0000_0000
  {
    QuotientIs(x + m * 0x1_0000_0000, 0x1_0000_0000, x / 0x1_0000_0000 + m, x % 0x1_0000_0000);
  }

  /** The arithmetic right shift by k, taken in two steps as the code does. */
  lemma RightShift(x: Long, k: nat, is32: bool)
    requires x < Range(is32) && 1 <= k <= 31
    ensures var v := Value(x, is32);
            var a, b := v / Pow2(k - 1), v / Pow2(k);
            b == a / 2 && Fits(a, is32) && Fits(b, is32) && (v < 0 <==> a < 0) && (v < 0 <==> b < 0)
  {
    var v := Value(x, is32);
    HalfOfQuotient(v, Pow2(k - 1));
    QuotientSign(v, Pow2(k - 1));
    QuotientSign(v, Pow2(k));
  }

  lemma ExtendedValue(x: Long, is32: bool)
    requires x < Range(is32) && Value(x, is32) < 0
    ensures SignExtend(x, is32) == Value(x, is32) + 0x1_0000_0000_0000_0000
  {
  }

  /** What the two steps leave when the sign bit is set. */
  lemma NegativeSteps(x: Long, k: nat, is32: bool)
    requires x < Range(is32) && 1 <= k <= 31 && Value(x, is32) < 0
    ensures var v := Value(x, is32);
            var half := SignExtend(x, is32) / Pow2(k - 1) % 0x1_0000_0000;
            var all := SignExtend(half, is32) / 2 % 0x1_0000_0000;
            half % 2 == v / Pow2(k - 1) % 2 && Trim(all, is32) == Trim(v / Pow2(k), is32)
  {
    hide Trim, Fits, SignExtend;
    var v := Value(x, is32);
    var a := v / Pow2(k - 1);
    RightShift(x, k, is32);
    ExtendedValue(x, is32);
    ExtendedQuotient(v, k - 1);
    HalveExtended(a, is32);
  }

  lemma HalveExtended(a: int, is32: bool)
    requires Fits(a, is32) && a < 0
    ensures var half := a % 0x1_0000_0000;
            half % 2 == a % 2 && Trim(SignExtend(half, is32) / 2 % 0x1_0000_0000, is32) == Trim(a / 2, is32)
  {
    hide Trim, SignExtend;
    QuotientIs(a, 0x1_0000_0000, -1, a + 0x1_0000_0000);
    ExtendFit(a, is32);
    HalfExtended(a);
    TrimAgain(a / 2, is32);
  }

  lemma ExtendFit(a: int, is32: bool)
    requires Fits(a, is32) && a < 0
    ensures SignExtend(a + 0x1_0000_0000, is32) == a + 0x1_0000_0000_0000_0000
    ensures (a + 0x1_0000_0000) % 2 == a % 2
  {
    if !is32 {
      QuotientIs(a + 0x1_0000_0000, 0x1_0000, 0xFFFF, a + 0x1_0000);
    }
  }

  lemma HalfExtended(a: int)
    requires -0x8000_0000 <= a < 0
    ensures (a + 0x1_0000_0000_0000_0000) / 2 % 0x1_0000_0000 == a / 2 + 0x1_0000_0000
  {
    var h := a / 2;
    QuotientIs(a + 0x1_0000_0000_0000_0000, 2, h + 0x8000_0000_0000_0000, a % 2);
    QuotientIs(h + 0x8000_0000_0000_0000, 0x1_0000_0000, 0x7FFF_FFFF, h + 0x1_0000_0000);
  }

  lemma TrimAgain(h: int, is32: bool)
    ensures Trim(h + 0x1_0000_0000, is32) == Trim(h, is32)
  {
    if is32 {
      MultipleVanishes(h, 1);
    } else {
      LowHalf(h + 0x1_0000_0000);
      LowHalf(h);
      MultipleVanishes(h, 1);
    }
  }

  lemma SignOfFit(r: int, is32: bool)
    requires Fits(r, is32)
    ensures SignBit(Trim(r, is32), is32) <==> r < 0
    ensures Value(Trim(r, is32), is32) == r
  {
  }

  lemma SignOfPattern(x: Long, is32: bool)
    requires x < Range(is32)
    ensures SignBit(x, is32) <==> Value(x, is32) < 0
    ensures Trim(x, is32) == x && Trim(Value(x, is32), is32) == x && Fits(Value(x, is32), is32)
  {
  }

  /** A right shift by 32 leaves only copies of the sign. */
  lemma WholeRight(x: Long, is32: bool)
    requires x < Range(is32)
    ensures Shifted(x, 32, is32) == (if Value(x, is32) < 0 then -1 else 0)
    ensures LastOut(x, 32, is32) <==> Value(x, is32) < 0
    ensures var copies := if Value(x, is32) < 0 then 0xFFFF_FFFF else 0;
            Trim(copies, is32) == Trim(Shifted(x, 32, is32), is32) && Fits(Shifted(x, 32, is32), is32)
            && (SignBit(copies, is32) <==> Value(x, is32) < 0)
  {
    hide Value, Trim, SignBit, Fits;
    Pow2At32();
    assert Pow2(32) == 2 * Pow2(31);
    ValueInRange(x, is32);
    SignQuotients(Value(x, is32));
    SignCopies(is32);
  }

  lemma ValueInRange(x: Long, is32: bool)
    requires x < Range(is32)
    ensures -0x8000_0000 <= Value(x, is32) < 0x8000_0000
  {
  }

  lemma SignQuotients(v: int)
    requires -0x8000_0000 <= v < 0x8000_0000
    ensures v / 0x1_0000_0000 == v / 0x8000_0000 == if v < 0 then -1 else 0
  {
    var s := if v < 0 then -1 else 0;
    QuotientIs(v, 0x1_0000_0000, s, v - s * 0x1_0000_0000);
    QuotientIs(v, 0x8000_0000, s, v - s * 0x8000_0000);
  }

  /** 32 ones are a sign copy of either width. */
  lemma SignCopies(is32: bool)
    ensures Trim(0xFFFF_FFFF, is32) == Trim(-1, is32) && SignBit(0xFFFF_FFFF, is32)
    ensures Trim(0, is32) == 0 && !SignBit(0, is32) && Fits(-1, is32) && Fits(0, is32)
  {
  }

  lemma NoShift(x: Long, is32: bool)
    requires x < Range(is32)
    ensures Trim(Shifted(x, 0, is32), is32) == x && Fits(Shifted(x, 0, is32), is32) && !LastOut(x, 0, is32)
  {
    assert Pow2(0) == 1;
  }

  /** `cpu::shifter`: the result, its condition codes and the loop that finds V. */
  method Shift(x: Long, count: nat, is32: bool) returns (value: Long, f: Flags)
    requires x < Range(is32) && count < 64
    ensures value == Trim(Shifted(x, count, is32), is32)
    ensures f == ShiftFlags(x, count, is32)
  {
    hide Trim, Value, Fits, SignBit, LastOut, Shifted;
    SignOfPattern(x, is32);
    NoShift(x, is32);
    var overflow, carry := false, false;
    if count == 0 {
      value := x;
    } else if count < 32 {
      value, overflow, carry := ShiftLeft(x, count, is32);
    } else if count == 32 {
      WholeRight(x, is32);
      value := if SignBit(x, is32) then 0xFFFF_FFFF else 0;
      carry := SignBit(x, is32);
      overflow := SignBit(x, is32) != SignBit(value, is32);
    } else {
      value, overflow, carry := ShiftRight(x, 64 - count, is32);
    }
    value := Trim(value, is32);
    f := Flags(SignBit(value, is32), value == 0, overflow, carry);
    SignOfPattern(value, is32);
  }

  lemma DoubledPower(v: int, i: nat)
    ensures v * Pow2(i + 1) == 2 * (v * Pow2(i)) && v * Pow2(0) == v
  {
    var p := Pow2(i);
    assert v * (2 * p) == 2 * (v * p);
  }

  /** The branch for counts below 32. */
  method ShiftLeft(x: Long, count: nat, is32: bool) returns (value: Long, overflow: bool, carry: bool)
    requires x < Range(is32) && 0 < count < 32
    ensures Trim(value, is32) == Trim(Shifted(x, count, is32), is32)
    ensures overflow <==> !Fits(Shifted(x, count, is32), is32)
    ensures carry <==> LastOut(x, count, is32)
  {
    hide Trim, Value, Fits, SignBit, LastOut, Pow2;
    SignOfPattern(x, is32);
    CarryLeft(x, count, is32);
    var sign := SignBit(x, is32);
    carry := SignBit(x * Pow2(count - 1) % 0x1_0000_0000, is32);
    value, overflow := x, false;
    ghost var v := Value(x, is32);
    ghost var w := v;
    DoubledPower(v, 0);
    for i := 0 to count
      invariant w == v * Pow2(i)
      invariant sign <==> w < 0
      invariant Trim(value, is32) == Trim(w, is32)
      invariant overflow <==> !Fits(w, is32)
    {
      LoopRound(value, w, is32);
      DoubledPower(v, i);
      value := value * 2 % 0x1_0000_0000;
      if SignBit(value, is32) != sign {
        overflow := true;
      }
      w := 2 * w;
    }
  }

  /** The branch for counts above 32, a right shift by k. */
  method ShiftRight(x: Long, k: nat, is32: bool) returns (value: Long, overflow: bool, carry: bool)
    requires x < Range(is32) && 1 <= k <= 31
    ensures Trim(value, is32) == Trim(Shifted(x, 64 - k, is32), is32)
    ensures overflow <==> !Fits(Shifted(x, 64 - k, is32), is32)
    ensures carry <==> LastOut(x, 64 - k, is32)
  {
    SignOfPattern(x, is32);
    RightShift(x, k, is32);
    SignOfFit(Value(x, is32) / Pow2(k), is32);
    var sign := SignBit(x, is32);
    if sign {
      NegativeSteps(x, k, is32);
      value := SignExtend(x, is32) / Pow2(k - 1) % 0x1_0000_0000;
      carry := value % 2 == 1;
      value := SignExtend(value, is32) / 2 % 0x1_0000_0000;
    } else {
      value := x / Pow2(k - 1);
      carry := value % 2 == 1;
      value := value / 2;
    }
    overflow := sign != SignBit(value, is32);
  }
}
