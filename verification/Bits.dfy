/** The bitwise operators on words, bit by bit. */
module Bits {
  import opened Words
  import opened Division

  function Pow2(k: nat): (p: nat)
    ensures p >= 1
  {
    if k == 0 then 1 else 2 * Pow2(k - 1)
  }

  /** Bit `i` of a number. */
  predicate BitOf(x: nat, i: nat) {
    x / Pow2(i) % 2 == 1
  }

  datatype Operator = Both | Either | OneOf {
    predicate On(x: bool, y: bool) {
      match this
      case Both => x && y
      case Either => x || y
      case OneOf => x != y
    }
  }

  /** The low `n` bits of two numbers, combined one by one. */
  function Combined(op: Operator, x: nat, y: nat, n: nat): (r: nat)
    ensures r < Pow2(n)
  {
    if n == 0 then 0
    else 2 * Combined(op, x / 2, y / 2, n - 1) + if op.On(x % 2 == 1, y % 2 == 1) then 1 else 0
  }

  const BITS: nat := 16

  lemma SixteenBits()
    ensures Pow2(BITS) == 0x1_0000
  {
    assert Pow2(8) == 0x100;
    Pow2Sum(8, 8);
  }

  lemma {:induction false} Pow2Sum(a: nat, b: nat)
    ensures Pow2(a + b) == Pow2(a) * Pow2(b)
  {
    if a > 0 {
      Pow2Sum(a - 1, b);
    }
  }

  function And(x: Word, y: Word): Word {
    SixteenBits();
    Combined(Both, x, y, BITS)
  }

  function Or(x: Word, y: Word): Word {
    SixteenBits();
    Combined(Either, x, y, BITS)
  }

  function Xor(x: Word, y: Word): Word {
    SixteenBits();
    Combined(OneOf, x, y, BITS)
  }

  function Not(x: Word): Word {
    0xFFFF - x
  }

  // --- Every bit ---

  lemma FirstBit(x: nat)
    ensures BitOf(x, 0) == (x % 2 == 1)
  {
  }

  lemma HigherBit(x: nat, i: nat)
    requires i > 0
    ensures BitOf(x, i) == BitOf(x / 2, i - 1)
  {
    var p := Pow2(i - 1);
    QuotientIs(x, 2 * p, x / 2 / p, x / 2 % p * 2 + x % 2);
  }

  lemma CombinedSplit(op: Operator, x: nat, y: nat, n: nat)
    requires n > 0
    ensures var r := Combined(op, x, y, n);
            r / 2 == Combined(op, x / 2, y / 2, n - 1) && (r % 2 == 1 <==> op.On(x % 2 == 1, y % 2 == 1))
  {
  }

  lemma {:induction false} CombinedBit(op: Operator, x: nat, y: nat, n: nat, i: nat)
    requires i < n
    ensures BitOf(Combined(op, x, y, n), i) == op.On(BitOf(x, i), BitOf(y, i))
    decreases n
  {
    hide BitOf, Combined;
    var r := Combined(op, x, y, n);
    CombinedSplit(op, x, y, n);
    if i == 0 {
      FirstBit(r);
      FirstBit(x);
      FirstBit(y);
    } else {
      HigherBit(r, i);
      HigherBit(x, i);
      HigherBit(y, i);
      CombinedBit(op, x / 2, y / 2, n - 1, i - 1);
    }
  }

  lemma {:induction false} ComplementBit(x: nat, n: nat, i: nat)
    requires x < Pow2(n) && i < n
    ensures BitOf(Pow2(n) - 1 - x, i) == !BitOf(x, i)
    decreases n
  {
    var r := Pow2(n) - 1 - x;
    assert r / 2 == Pow2(n - 1) - 1 - x / 2;
    if i > 0 {
      HigherBit(r, i);
      HigherBit(x, i);
      ComplementBit(x / 2, n - 1, i - 1);
    }
  }

  /** The four operators, bit for bit. */
  lemma OperatorBits(x: Word, y: Word, i: nat)
    requires i < 16
    ensures BitOf(And(x, y), i) == (BitOf(x, i) && BitOf(y, i))
    ensures BitOf(Or(x, y), i) == (BitOf(x, i) || BitOf(y, i))
    ensures BitOf(Xor(x, y), i) == (BitOf(x, i) != BitOf(y, i))
    ensures BitOf(Not(x), i) == !BitOf(x, i)
  {
    hide BitOf;
    SixteenBits();
    CombinedBit(Both, x, y, 16, i);
    CombinedBit(Either, x, y, 16, i);
    CombinedBit(OneOf, x, y, 16, i);
    ComplementBit(x, 16, i);
  }

  /** A word is its bits. */
  lemma {:induction false} BitsDetermine(x: nat, y: nat, n: nat)
    requires x < Pow2(n) && y < Pow2(n) && forall i :: 0 <= i < n ==> BitOf(x, i) == BitOf(y, i)
    ensures x == y
    decreases n
  {
    if n > 0 {
      forall i | 0 <= i < n - 1 ensures BitOf(x / 2, i) == BitOf(y / 2, i) {
        HigherBit(x, i + 1);
        HigherBit(y, i + 1);
      }
      BitsDetermine(x / 2, y / 2, n - 1);
      assert BitOf(x, 0) == BitOf(y, 0);
    }
  }

  /** Setting a bit that is clear. */
  lemma {:induction false} SetBit(x: nat, k: nat, i: nat)
    requires !BitOf(x, k)
    ensures BitOf(x + Pow2(k), i) == (i == k || BitOf(x, i))
    decreases k
  {
    hide BitOf, Pow2;
    var y := x + Pow2(k);
    SetSplit(x, k);
    FirstBit(x);
    FirstBit(y);
    if i > 0 {
      HigherBit(x, i);
      HigherBit(y, i);
      if k > 0 {
        HigherBit(x, k);
        SetBit(x / 2, k - 1, i - 1);
      }
    }
  }

  lemma SetSplit(x: nat, k: nat)
    requires !BitOf(x, k)
    ensures var y := x + Pow2(k);
            if k == 0 then y / 2 == x / 2 && y % 2 == 1
            else y / 2 == x / 2 + Pow2(k - 1) && y % 2 == x % 2
  {
    if k > 0 {
      hide BitOf;
      assert Pow2(k) == 2 * Pow2(k - 1);
    }
  }

  /** The low bits of a remainder. */
  lemma {:induction false} LowBit(x: nat, n: nat, i: nat)
    requires i < n
    ensures BitOf(x % Pow2(n), i) == BitOf(x, i)
    decreases n
  {
    hide BitOf, Pow2;
    var r := x % Pow2(n);
    LowSplit(x, n);
    if i == 0 {
      FirstBit(x);
      FirstBit(r);
    } else {
      HigherBit(x, i);
      HigherBit(r, i);
      LowBit(x / 2, n - 1, i - 1);
    }
  }

  lemma LowSplit(x: nat, n: nat)
    requires n > 0
    ensures x % Pow2(n) / 2 == x / 2 % Pow2(n - 1) && x % Pow2(n) % 2 == x % 2
  {
    var p := Pow2(n - 1);
    assert Pow2(n) == 2 * p;
    hide Pow2;
    QuotientIs(x, 2 * p, x / 2 / p, x / 2 % p * 2 + x % 2);
  }

  /** The bits of two numbers written one above the other. */
  lemma {:induction false} JoinedBit(high: nat, low: nat, k: nat, i: nat)
    requires low < Pow2(k)
    ensures BitOf(high * Pow2(k) + low, i) == if i < k then BitOf(low, i) else BitOf(high, i - k)
    decreases k
  {
    hide BitOf;
    if k > 0 {
      var x := high * Pow2(k) + low;
      JoinedSplit(high, low, k);
      hide Pow2;
      if i == 0 {
        FirstBit(x);
        FirstBit(low);
      } else {
        HigherBit(x, i);
        HigherBit(low, i);
        JoinedBit(high, low / 2, k - 1, i - 1);
      }
    }
  }

  lemma JoinedSplit(high: nat, low: nat, k: nat)
    requires k > 0 && low < Pow2(k)
    ensures var x := high * Pow2(k) + low;
            x / 2 == high * Pow2(k - 1) + low / 2 && x % 2 == low % 2 && low / 2 < Pow2(k - 1)
  {
    var p := Pow2(k - 1);
    assert Pow2(k) == 2 * p;
    hide Pow2;
    assert high * (2 * p) == 2 * (high * p);
    QuotientIs(high * (2 * p) + low, 2, high * p + low / 2, low % 2);
  }

  /** The field of `w` bits at bit `k` replaced, and no other bit. */
  lemma FieldReplaced(x: nat, y: nat, high: nat, was: nat, now: nat, w: nat, low: nat, k: nat, i: nat)
    requires was < Pow2(w) && now < Pow2(w) && low < Pow2(k)
    requires x == high * Pow2(w) + was && y == high * Pow2(w) + now
    ensures BitOf(y * Pow2(k) + low, i) == if k <= i < k + w then BitOf(now, i - k) else BitOf(x * Pow2(k) + low, i)
  {
    hide Pow2, BitOf;
    JoinedBit(y, low, k, i);
    JoinedBit(x, low, k, i);
    if i >= k {
      JoinedBit(high, now, w, i - k);
      JoinedBit(high, was, w, i - k);
    }
  }

  lemma LowOrNone(x: nat, n: nat, i: nat)
    ensures BitOf(x % Pow2(n), i) == (i < n && BitOf(x, i))
  {
    hide Pow2;
    JoinedBit(0, x % Pow2(n), n, i);
    if i < n {
      LowBit(x, n, i);
    } else {
      NoBit(i - n);
    }
  }

  lemma NoBit(i: nat)
    ensures !BitOf(0, i)
  {
  }
}
