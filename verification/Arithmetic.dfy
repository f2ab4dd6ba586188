/** The arithmetic instructions on values (cpu.cpp): what they compute and the condition
    codes they leave. CMP and the branches, ADD/ADC and SUB/SBC chains, MUL and DIV. */
module Arithmetic {
  import opened Words
  import opened Division
  import opened Bus

  datatype Flags = Flags(n: bool, z: bool, v: bool, c: bool)

  function Modulus(width: Width): int {
    if width == ByteWide then 0x100 else 0x1_0000
  }

  /** `x & word_mode_mask[wm]`. */
  function Mask(x: int, width: Width): Word {
    if width == ByteWide then x % 0x100 else x % 0x1_0000
  }

  /** `SIGN(x, wm)`. */
  predicate Negative(x: int, width: Width) {
    if width == ByteWide then x % 0x100 >= 0x80 else x % 0x1_0000 >= 0x8000
  }

  function SignedOf(x: Word, width: Width): int {
    if width == ByteWide then SignedByte(Low(x)) else Signed(x)
  }

  // --- Compare and branch ---

  /** SIGN picks one bit, so it is taken of each operand of the xor's and the complement. */
  function Compare(src: Word, dst: Word, width: Width): Flags {
    var t := Mask(src - dst, width);
    Flags(Negative(t, width), t == 0,
          Negative(src, width) != Negative(dst, width) && Negative(dst, width) == Negative(t, width),
          src < dst)
  }

  /** `conditional_branch_instructions_evaluate`: None when `instr` is no branch. */
  function BranchTaken(instr: Word, f: Flags): Option<bool> {
    match instr / 0x100
    case 0x01 => Some(true)                        // BR
    case 0x02 => Some(!f.z)                        // BNE
    case 0x03 => Some(f.z)                         // BEQ
    case 0x04 => Some(f.n == f.v)                  // BGE
    case 0x05 => Some(f.n != f.v)                  // BLT
    case 0x06 => Some(f.n == f.v && !f.z)          // BGT
    case 0x07 => Some(f.n != f.v || f.z)           // BLE
    case 0x80 => Some(!f.n)                        // BPL
    case 0x81 => Some(f.n)                         // BMI
    case 0x82 => Some(!f.c && !f.z)                // BHI
    case 0x83 => Some(f.c || f.z)                  // BLOS
    case 0x84 => Some(!f.v)                        // BVC
    case 0x85 => Some(f.v)                         // BVS
    case 0x86 => Some(!f.c)                        // BCC
    case 0x87 => Some(f.c)                         // BCS
    case _ => None
  }

  /** After CMP or CMPB the branches decide the signed and the unsigned order. */
  lemma BranchesDecideOrder(instr: Word, src: Word, dst: Word, width: Width)
    requires src < Modulus(width) && dst < Modulus(width)
    ensures var taken := BranchTaken(instr, Compare(src, dst, width));
            var s, d := SignedOf(src, width), SignedOf(dst, width);
            match instr / 0x100
            case 0x02 => taken == Some(src != dst)
            case 0x03 => taken == Some(src == dst)
            case 0x04 => taken == Some(s >= d)
            case 0x05 => taken == Some(s < d)
            case 0x06 => taken == Some(s > d)
            case 0x07 => taken == Some(s <= d)
            case 0x82 => taken == Some(src > dst)
            case 0x83 => taken == Some(src <= dst)
            case 0x86 => taken == Some(src >= dst)
            case 0x87 => taken == Some(src < dst)
            case _ => true
  {
    hide Compare, SignedOf, Modulus;
    SignsDecide(src, dst, width);
    SameDecide(src, dst, width);
  }

  /** N and V together are the true sign of the difference, and V alone says that it does not
      fit the width. */
  lemma SignsDecide(src: Word, dst: Word, width: Width)
    requires src < Modulus(width) && dst < Modulus(width)
    ensures var f := Compare(src, dst, width);
            var difference := SignedOf(src, width) - SignedOf(dst, width);
            (f.n != f.v <==> difference < 0)
            && (f.v <==> !(-Modulus(width) / 2 <= difference < Modulus(width) / 2))
  {
    hide Negative, SignedOf;
    var t := Mask(src - dst, width);
    SignOf(src, width);
    SignOf(dst, width);
    SignOf(t, width);
    SignOfDifference(src, dst, Modulus(width) / 2);
  }

  lemma SignOf(x: Word, width: Width)
    requires x < Modulus(width)
    ensures Negative(x, width) <==> x >= Modulus(width) / 2
    ensures SignedOf(x, width) == if x < Modulus(width) / 2 then x else x - Modulus(width)
  {
  }

  /** The same for a modulus of twice `half`. */
  lemma SignOfDifference(src: int, dst: int, half: int)
    requires half > 0 && 0 <= src < 2 * half && 0 <= dst < 2 * half
    ensures var t := (src - dst) % (2 * half);
            var n, v := t >= half, (src >= half) != (dst >= half) && (dst >= half) == (t >= half);
            var s, d := if src < half then src else src - 2 * half, if dst < half then dst else dst - 2 * half;
            (n != v <==> s < d) && (v <==> !(-half <= s - d < half))
  {
    if src < dst {
      QuotientIs(src - dst, 2 * half, -1, src - dst + 2 * half);
    } else {
      QuotientIs(src - dst, 2 * half, 0, src - dst);
    }
  }

  lemma SameDecide(src: Word, dst: Word, width: Width)
    requires src < Modulus(width) && dst < Modulus(width)
    ensures var f := Compare(src, dst, width);
            (f.z <==> src == dst) && (f.c <==> src < dst)
            && (src == dst <==> SignedOf(src, width) == SignedOf(dst, width))
  {
    hide Negative, SignedOf;
    DifferenceIsZero(src, dst, Modulus(width));
    SignOf(src, width);
    SignOf(dst, width);
  }

  lemma DifferenceIsZero(src: int, dst: int, modulus: int)
    requires 0 <= src < modulus && 0 <= dst < modulus
    ensures (src - dst) % modulus == 0 <==> src == dst
  {
    if src < dst {
      QuotientIs(src - dst, modulus, -1, src - dst + modulus);
    } else {
      QuotientIs(src - dst, modulus, 0, src - dst);
    }
  }

  // --- Addition and subtraction ---

  /** ADD: the result and its condition codes. */
  function Add(dst: Word, src: Word): (Word, Flags) {
    var r := Wrap(dst + src);
    (r, Flags(Signed(r) < 0, r == 0, (src >= 0x8000) == (dst >= 0x8000) && (src >= 0x8000) != (r >= 0x8000), r < src))
  }

  /** SUB. */
  function Sub(dst: Word, src: Word): (Word, Flags) {
    var r := Wrap(dst - src);
    (r, Flags(Signed(r) < 0, r == 0, (dst >= 0x8000) != (src >= 0x8000) && (src >= 0x8000) == (r >= 0x8000), dst < src))
  }

  /** ADC and SBC on a word or a byte `x` of that width, with the old carry. */
  function AddCarry(x: Word, c: bool, width: Width): (Word, Flags)
    requires x < Modulus(width)
  {
    var r := Mask(x + Bit(c), width);
    (r, Flags(Negative(r, width), r == 0, x == Modulus(width) / 2 - 1 && c, x == Modulus(width) - 1 && c))
  }

  function SubCarry(x: Word, c: bool, width: Width): (Word, Flags)
    requires x < Modulus(width)
  {
    var r := Mask(x - Bit(c), width);
    (r, Flags(Negative(r, width), r == 0, x == Modulus(width) / 2 && c, x == 0 && c))
  }

  /** C and V say how the wrapped result misses the true unsigned and signed one. */
  lemma AddExact(dst: Word, src: Word)
    ensures var (r, f) := Add(dst, src);
            r + Weighted(f.c, 0x1_0000) == dst + src && (f.v <==> Signed(r) != Signed(dst) + Signed(src))
            && (f.n <==> Signed(r) < 0) && (f.z <==> r == 0)
  {
  }

  lemma SubExact(dst: Word, src: Word)
    ensures var (r, f) := Sub(dst, src);
            r - Weighted(f.c, 0x1_0000) == dst - src && (f.v <==> Signed(r) != Signed(dst) - Signed(src))
            && (f.n <==> Signed(r) < 0) && (f.z <==> r == 0)
  {
  }

  lemma AddCarryExact(x: Word, c: bool, width: Width)
    requires x < Modulus(width)
    ensures var (r, f) := AddCarry(x, c, width);
            r + Weighted(f.c, Modulus(width)) == x + Bit(c)
            && (f.v <==> SignedOf(r, width) != SignedOf(x, width) + Bit(c))
            && (f.n <==> SignedOf(r, width) < 0) && (f.z <==> r == 0)
  {
    var top, r := x == Modulus(width) - 1 && c, Mask(x + Bit(c), width);
    assert r == if top then 0 else x + Bit(c);
    SignOf(x, width);
    SignOf(r, width);
    hide Mask, Negative, SignedOf;
  }

  lemma SubCarryExact(x: Word, c: bool, width: Width)
    requires x < Modulus(width)
    ensures var (r, f) := SubCarry(x, c, width);
            r - Weighted(f.c, Modulus(width)) == x - Bit(c)
            && (f.v <==> SignedOf(r, width) != SignedOf(x, width) - Bit(c))
            && (f.n <==> SignedOf(r, width) < 0) && (f.z <==> r == 0)
  {
    var bottom, r := x == 0 && c, Mask(x - Bit(c), width);
    assert r == if bottom then Modulus(width) - 1 else x - Bit(c);
    SignOf(x, width);
    SignOf(r, width);
    hide Mask, Negative, SignedOf;
  }

  /** An n-word number, least significant word first. */
  function Number(words: seq<Word>): nat {
    if words == [] then 0 else words[0] + 0x1_0000 * Number(words[1..])
  }

  /** `p` when the carry is set. */
  function Weighted(c: bool, p: int): int {
    if c then p else 0
  }

  function Power(n: nat): (p: nat)
    ensures p >= 1
  {
    if n == 0 then 1 else 0x1_0000 * Power(n - 1)
  }

  /** ADC (or SBC) on each word in turn, the carry flag running through. */
  function Ripple(words: seq<Word>, c: bool, subtract: bool): (r: (seq<Word>, bool))
    ensures |r.0| == |words|
  {
    if words == [] then ([], c)
    else
      var (low, f) := if subtract then SubCarry(words[0], c, WordWide) else AddCarry(words[0], c, WordWide);
      var (high, last) := Ripple(words[1..], f.c, subtract);
      ([low] + high, last)
  }

  /** ADD (or SUB) of `x` to the lowest word, then ADC (or SBC) on the others. */
  function Chain(words: seq<Word>, x: Word, subtract: bool): (r: (seq<Word>, bool))
    requires words != []
    ensures |r.0| == |words|
  {
    var (low, f) := if subtract then Sub(words[0], x) else Add(words[0], x);
    var (high, last) := Ripple(words[1..], f.c, subtract);
    ([low] + high, last)
  }

  lemma {:induction false} RippleExact(words: seq<Word>, c: bool, subtract: bool)
    ensures var (r, last) := Ripple(words, c, subtract);
            if subtract then Number(r) - Weighted(last, Power(|words|)) == Number(words) - Bit(c)
            else Number(r) + Weighted(last, Power(|words|)) == Number(words) + Bit(c)
  {
    if words != [] {
      AddCarryExact(words[0], c, WordWide);
      SubCarryExact(words[0], c, WordWide);
      var (low, f) := if subtract then SubCarry(words[0], c, WordWide) else AddCarry(words[0], c, WordWide);
      RippleExact(words[1..], f.c, subtract);
      var (high, last) := Ripple(words[1..], f.c, subtract);
      NumberSplit(low, high);
    }
  }

  lemma NumberSplit(low: Word, high: seq<Word>)
    ensures Number([low] + high) == low + 0x1_0000 * Number(high)
  {
    assert ([low] + high)[1..] == high;
  }

  /** Multi-word addition and subtraction are exact: the carry out is the one true bit that
      does not fit in n words. */
  lemma ChainExact(words: seq<Word>, x: Word, subtract: bool)
    requires words != []
    ensures var (r, last) := Chain(words, x, subtract);
            if subtract then Number(r) - Weighted(last, Power(|words|)) == Number(words) - x
            else Number(r) + Weighted(last, Power(|words|)) == Number(words) + x
  {
    var (low, f) := if subtract then Sub(words[0], x) else Add(words[0], x);
    assert if subtract then low - Weighted(f.c, 0x1_0000) == words[0] - x
           else low + Weighted(f.c, 0x1_0000) == words[0] + x by {
      AddExact(words[0], x);
      SubExact(words[0], x);
    }
    RippleExact(words[1..], f.c, subtract);
    var (high, last) := Ripple(words[1..], f.c, subtract);
    NumberSplit(low, high);
    assert Weighted(last, Power(|words|)) == 0x1_0000 * Weighted(last, Power(|words| - 1));
    assert Chain(words, x, subtract) == ([low] + high, last);
  }

  lemma NumberBelowPower(words: seq<Word>)
    ensures Number(words) < Power(|words|)
  {
  }

  lemma {:induction false} NumberInjective(a: seq<Word>, b: seq<Word>)
    requires |a| == |b| && Number(a) == Number(b)
    ensures a == b
  {
    if a != [] {
      NumberInjective(a[1..], b[1..]);
      assert a == [a[0]] + a[1..] && b == [b[0]] + b[1..];
    }
  }

  /** A chain of subtractions undoes a chain of additions, and the other way round, with the
      borrow out equal to the carry out. */
  lemma ChainsUndo(words: seq<Word>, x: Word, subtract: bool)
    requires words != []
    ensures Chain(Chain(words, x, subtract).0, x, !subtract) == (words, Chain(words, x, subtract).1)
  {
    var (there, c) := Chain(words, x, subtract);
    var (back, d) := Chain(there, x, !subtract);
    ChainExact(words, x, subtract);
    ChainExact(there, x, !subtract);
    NumberBelowPower(words);
    NumberBelowPower(back);
    assert Number(back) == Number(words);
    NumberInjective(back, words);
  }

  // --- Multiplication and division ---

  /** The register pair as one signed 32-bit number. */
  function Pair(high: Word, low: Word): int {
    Signed(high) * 0x1_0000 + low
  }

  /** MUL: the product's two words and condition codes. */
  function Multiply(a: Word, b: Word): (Word, Word, Flags) {
    var p := Signed(a) * Signed(b);
    (Wrap(p / 0x1_0000), Wrap(p), Flags(p < 0, p == 0, false, p < -0x8000 || p > 0x7FFF))
  }

  /** C++ division truncates toward zero. */
  function Quotient(a: int, d: int): int
    requires d != 0
  {
    if (a < 0) == (d < 0) then Abs(a) / Abs(d) else -(Abs(a) / Abs(d))
  }

  function Remainder(a: int, d: int): int
    requires d != 0
  {
    a - Quotient(a, d) * d
  }

  /** DIV: the new register pair, or None when the registers are left alone. */
  function Divide(high: Word, low: Word, divisor: Word): (Option<(Word, Word)>, Flags) {
    var a, d := Pair(high, low), Signed(divisor);
    if d == 0 then (None, Flags(false, true, true, true))
    else if d == -1 && a == -0x8000_0000 then (None, Flags(false, false, true, false))
    else
      var q := Quotient(a, d);
      if q > 0x7FFF || q < -0x8000 then (None, Flags(q < 0, q == 0, true, false))
      else (Some((Wrap(q), Wrap(Remainder(a, d)))), Flags(q < 0, q == 0, false, false))
  }

  /** Exact integer division as the handbook states it. */
  predicate Divides(a: int, d: int, q: int, r: int) {
    a == q * d + r && Abs(r) < Abs(d) && (r == 0 || (r < 0) == (a < 0))
  }

  lemma TruncatingDivision(a: int, d: int)
    requires d != 0
    ensures Divides(a, d, Quotient(a, d), Remainder(a, d))
  {
    hide Quotient, Remainder, Divides;
    DivMod(Abs(a), Abs(d));
    Truncates(a, d, Abs(a) / Abs(d), Abs(a) % Abs(d));
  }

  lemma Truncates(a: int, d: int, t: nat, s: nat)
    requires d != 0 && t == Abs(a) / Abs(d) && Abs(a) == t * Abs(d) + s && s < Abs(d)
    ensures Divides(a, d, Quotient(a, d), Remainder(a, d))
  {
    hide Quotient, Divides;
    QuotientTimes(a, d, t);
    SignedRemainder(a, d, Quotient(a, d), t * Abs(d), s);
  }

  lemma SignedRemainder(a: int, d: int, q: int, whole: int, s: nat)
    requires Abs(a) == whole + s && s < Abs(d) && q * d == if a < 0 then -whole else whole
    ensures Divides(a, d, q, a - q * d)
  {
    var product := q * d;
    assert a - product == if a < 0 then -(s as int) else s;
  }

  lemma QuotientTimes(a: int, d: int, t: int)
    requires d != 0 && t == Abs(a) / Abs(d)
    ensures Quotient(a, d) * d == if a < 0 then -(t * Abs(d)) else t * Abs(d)
  {
    assert Quotient(a, d) == if (a < 0) == (d < 0) then t else -t;
    hide Quotient;
    SignsOut(t, d);
  }

  lemma SignsOut(t: int, d: int)
    ensures t * -d == -(t * d) && -t * d == -(t * d) && -t * -d == t * d
  {
  }

  lemma DivisionUnique(a: int, d: int, q: int, r: int, q': int, r': int)
    requires d != 0 && Divides(a, d, q, r) && Divides(a, d, q', r')
    ensures q == q' && r == r'
  {
    assert (q - q') * d == r' - r;
    assert Abs(r' - r) < Abs(d);
    MultipleAtLeast(q - q', d);
  }

  /** DIV yields the one truncated quotient and remainder, and leaves the registers alone
      exactly when the divisor is zero or the quotient does not fit 16 signed bits. */
  lemma DivideExact(high: Word, low: Word, divisor: Word, q: int, r: int)
    requires Signed(divisor) != 0 ==> Divides(Pair(high, low), Signed(divisor), q, r)
    ensures var (result, f) := Divide(high, low, divisor);
            (result == None <==> Signed(divisor) == 0 || !(-0x8000 <= q <= 0x7FFF))
            && (result.Some? ==>
                  Signed(result.value.0) == q && Signed(result.value.1) == r && f == Flags(q < 0, q == 0, false, false))
            && (result == None ==>
                  f == if Signed(divisor) == 0 then Flags(false, true, true, true)
                       else Flags(q < 0, q == 0, true, false))
  {
    var a, d := Pair(high, low), Signed(divisor);
    if d != 0 {
      TruncatingDivision(a, d);
      DivisionUnique(a, d, q, r, Quotient(a, d), Remainder(a, d));
      SignedRoundTrip(r);
      if -0x8000 <= q <= 0x7FFF {
        SignedRoundTrip(q);
      }
    }
  }

  lemma SignedRoundTrip(x: int)
    requires -0x8000 <= x < 0x8000
    ensures Signed(Wrap(x)) == x
  {
  }

  lemma {:induction false} ProductOfNats(a: nat, b: nat)
    ensures a * b >= 0
    decreases a
  {
    if a > 0 {
      ProductOfNats(a - 1, b);
      assert a * b == (a - 1) * b + b;
    }
  }

  lemma BoundedProduct(p: nat, q: nat)
    requires p <= 0x8000 && q <= 0x8000
    ensures p * q <= 0x4000_0000
  {
    ProductOfNats(0x8000 - p, q);
    assert (0x8000 - p) * q == 0x8000 * q - p * q;
  }

  lemma ProductRange(a: int, b: int)
    requires Abs(a) <= 0x8000 && Abs(b) <= 0x8000
    ensures -0x4000_0000 <= a * b <= 0x4000_0000
  {
    BoundedProduct(Abs(a), Abs(b));
    var p: int := Abs(a) * Abs(b);
    assert a * b == p || a * b == -p;
  }

  lemma PairOfProduct(p: int)
    requires -0x4000_0000 <= p <= 0x4000_0000
    ensures Pair(Wrap(p / 0x1_0000), Wrap(p)) == p
    ensures -0x8000 <= p < 0x8000 <==> Signed(Wrap(p)) == p
  {
    hide Signed;
    DivMod(p, 0x1_0000);
    SignedRoundTrip(p / 0x1_0000);
    if -0x8000 <= p < 0x8000 {
      SignedRoundTrip(p);
    }
    SignedRange(Wrap(p));
  }

  lemma SignedRange(w: Word)
    ensures -0x8000 <= Signed(w) < 0x8000 && (Signed(w) == 0 <==> w == 0)
  {
  }

  lemma SignedDetermines(v: Word, w: Word)
    requires Signed(v) == Signed(w)
    ensures v == w
  {
  }

  lemma ProductDivides(a: int, b: int)
    requires b != 0
    ensures Divides(a * b, b, a, 0)
  {
  }

  /** MUL yields the whole product, and DIV by the same operand takes it back. */
  lemma DivideUndoesMultiply(a: Word, b: Word)
    ensures var (high, low, f) := Multiply(a, b);
            var product := Signed(a) * Signed(b);
            Pair(high, low) == product && f == Flags(product < 0, product == 0, false, Signed(low) != product)
            && (b != 0 ==> Divide(high, low, b).0 == Some((a, 0)))
  {
    hide Pair, Divide, Signed, Divides, Wrap;
    var p := Signed(a) * Signed(b);
    SignedRange(a);
    SignedRange(b);
    ProductRange(Signed(a), Signed(b));
    PairOfProduct(p);
    if b != 0 {
      var (high, low, _) := Multiply(a, b);
      ProductDivides(Signed(a), Signed(b));
      DivideExact(high, low, b, Signed(a), 0);
      var (quotient, remainder) := Divide(high, low, b).0.value;
      SignedDetermines(quotient, a);
      SignedRange(remainder);
    }
  }
}
