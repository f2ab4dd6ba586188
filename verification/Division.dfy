/** Facts about division by a number that is not a constant. */
module Division {

  function Abs(x: int): nat {
    if x < 0 then -x else x
  }

  lemma DivMod(v: int, a: int)
    requires a > 0
    ensures v == v / a * a + v % a && 0 <= v % a < a
  {
  }

  lemma MultipleAtLeast(k: int, d: int)
    ensures k != 0 ==> Abs(k * d) >= Abs(d)
  {
    assert Abs(k * d) == Abs(k) * Abs(d);
    if k != 0 {
      var more := Abs(k) - 1;
      assert Abs(k) * Abs(d) == more * Abs(d) + Abs(d) && more * Abs(d) >= 0;
    }
  }

  /** Quotient and remainder are determined by any way of splitting `v`. */
  lemma QuotientIs(v: int, a: int, q: int, r: int)
    requires a > 0 && v == q * a + r && 0 <= r < a
    ensures v / a == q && v % a == r
  {
    var d := v / a - q;
    assert d * a == r - v % a;
    MultipleAtLeast(d, a);
  }

  /** Two different multiples are at least one step apart. */
  lemma MultiplesApart(o: nat, p: nat, step: nat)
    requires step > 0 && o % step == 0 && p % step == 0 && o < p
    ensures o + step <= p && o / step < p / step
  {
    var k := p / step - o / step;
    assert k * step == p - o;
    MultipleAtLeast(k, step);
    NotPositive(k, step);
  }

  lemma NotPositive(k: int, step: nat)
    ensures k <= 0 ==> k * step <= 0
  {
    if k <= 0 {
      assert -k * step >= 0;
    }
  }

  lemma NextMultiple(o: nat, p: nat, step: nat)
    requires step > 0 && o % step == 0 && p % step == 0
    ensures (o + p) % step == 0 && (o + p) / step == o / step + p / step
    ensures (o + step) % step == 0 && (o + step) / step == o / step + 1
  {
    QuotientIs(o + p, step, o / step + p / step, 0);
    QuotientIs(o + step, step, o / step + 1, 0);
  }

  lemma AddedMultiple(p: nat, d: nat, k: nat)
    requires d > 0
    ensures (p + k * d) / d == p / d + k && (p + k * d) % d == p % d
  {
    QuotientIs(p + k * d, d, p / d + k, p % d);
  }

  /** Adding less than is missing to the next multiple. */
  lemma NoCarry(p: nat, d: nat, n: nat)
    requires d > 0 && p % d + n < d
    ensures (p + n) / d == p / d
  {
    QuotientIs(p + n, d, p / d, p % d + n);
  }
}
