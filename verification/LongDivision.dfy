/** The 128-bit division helpers: one quotient bit per step, on 128-bit registers that
    wrap around. */
module LongDivision {
  const TWO128: nat := 0x1_0000_0000_0000_0000_0000_0000_0000_0000

  function Pow2(i: nat): (p: nat)
    ensures p >= 1
  {
    if i == 0 then 1 else 2 * Pow2(i - 1)
  }

  /** `n >> i`. */
  function ShiftRight(n: nat, i: nat): nat {
    var p := Pow2(i);
    QuotientIsNat(n, p);
    n / p
  }

  lemma QuotientIsNat(n: nat, p: nat)
    requires p > 0
    ensures n / p >= 0
  {
  }

  /** `(r << 1) | bit` on 128 bits. */
  function ShiftIn(r: nat, bit: nat): nat { (2 * r + bit) % TWO128 }

  /** `q | (1 << i)`. */
  function SetBit(q: nat, i: nat): nat {
    if q / Pow2(i) % 2 == 0 then q + Pow2(i) else q
  }

  lemma Divided(n: nat, p: nat, q: int, r: int)
    requires p > 0 && n == p * q + r && 0 <= r < p
    ensures n / p == q
  {
    var d := n / p - q;
    assert p * (n / p) + n % p == n;
    assert p * d == r - n % p;
    assert d >= 1 ==> p * d >= p;
    assert d <= -1 ==> p * d <= 0 - p;
  }

  lemma AtLeastOnce(p: nat, m: nat)
    requires p >= 1
    ensures p * m >= m
  {
    var k := p - 1;
    assert k * m >= 0;
    assert p * m == k * m + m;
  }

  lemma DividedIsLess(n: nat, p: nat)
    requires p > 0
    ensures n / p <= n
  {
    var m := n / p;
    assert n == p * m + n % p;
    AtLeastOnce(p, m);
  }

  lemma PowerOf128()
    ensures Pow2(128) == TWO128
  {
    EighthPower();
    hide Pow2;
    SumOfExponents(8, 8);
    SumOfExponents(16, 16);
    SumOfExponents(32, 32);
    SumOfExponents(64, 64);
  }

  lemma EighthPower()
    ensures Pow2(8) == 256
  {
  }

  lemma {:induction false} SumOfExponents(i: nat, j: nat)
    ensures Pow2(i + j) == Pow2(i) * Pow2(j)
  {
    if i > 0 {
      SumOfExponents(i - 1, j);
      assert Pow2(i) * Pow2(j) == 2 * (Pow2(i - 1) * Pow2(j));
    }
  }

  /** One bit less is shifted out. */
  lemma NextBit(n: nat, i: nat)
    ensures ShiftRight(n, i) == 2 * ShiftRight(n, i + 1) + ShiftRight(n, i) % 2
  {
    var p, h := Pow2(i), ShiftRight(n, i) / 2;
    var m := ShiftRight(n, i);
    assert n == p * m + n % p;
    assert p * m == 2 * p * h + p * (m % 2);
    assert p * (m % 2) <= p;
    Divided(n, 2 * p, h, p * (m % 2) + n % p);
  }

  lemma ShiftedIsLess(n: nat, i: nat)
    ensures ShiftRight(n, i) <= n
  {
    DividedIsLess(n, Pow2(i));
  }

  /** The shifted remainder never loses its top bit, whatever the divisor, because it is
      at most `n` shifted right. */
  lemma ShiftFits(n: nat, i: nat, r: nat)
    requires n < TWO128 && r <= ShiftRight(n, i + 1)
    ensures var r' := ShiftIn(r, ShiftRight(n, i) % 2);
            r' == 2 * r + ShiftRight(n, i) % 2 <= ShiftRight(n, i) < TWO128
  {
    hide ShiftRight, Pow2;
    NextBit(n, i);
    ShiftedIsLess(n, i);
  }

  lemma BitIsClear(q: nat, high: nat, i: nat)
    requires q == high * Pow2(i + 1)
    ensures SetBit(q, i) == (2 * high + 1) * Pow2(i) && q == 2 * high * Pow2(i)
  {
    var p := Pow2(i);
    assert q == p * (2 * high) + 0 by {
      assert high * (2 * p) == p * (2 * high);
    }
    Divided(q, p, 2 * high, 0);
  }

  /** One step: `high` quotient bits and the remainder of the bits seen so far. */
  lemma StepKeeps(n: nat, d: nat, i: nat, high: nat, r: nat)
    requires ShiftRight(n, i + 1) == high * d + r
    ensures var r' := 2 * r + ShiftRight(n, i) % 2;
            && ShiftRight(n, i) == 2 * high * d + r'
            && ShiftRight(n, i) == (2 * high + 1) * d + (r' - d)
  {
    NextBit(n, i);
    assert 2 * (high * d) == 2 * high * d;
    assert (2 * high + 1) * d == 2 * high * d + d;
  }

  /** Quotient and remainder of 128-bit numbers; a zero divisor gives all ones and `n`. */
  method UDivMod128(n: nat, d: nat) returns (q: nat, r: nat)
    requires n < TWO128 && d < TWO128
    ensures d != 0 ==> n == q * d + r && r < d && q == n / d && r == n % d
    ensures d == 0 ==> q == TWO128 - 1 && r == n
    ensures q < TWO128 && r < TWO128
  {
    q, r := 0, 0;
    var i := 127;
    ghost var high := 0;
    PowerOf128();
    Divided(n, Pow2(128), 0, n);
    hide Pow2, ShiftRight, SetBit, ShiftIn;
    while i >= 0
      invariant -1 <= i <= 127
      invariant q == high * Pow2(i + 1) && ShiftRight(n, i + 1) == high * d + r
      invariant r <= ShiftRight(n, i + 1) && (d != 0 ==> r < d)
      invariant d == 0 ==> (high + 1) * Pow2(i + 1) == TWO128
    {
      ShiftFits(n, i, r);
      BitIsClear(q, high, i);
      StepKeeps(n, d, i, high, r);
      DoublePower(high, i);
      r := ShiftIn(r, ShiftRight(n, i) % 2);
      high := 2 * high;
      if r >= d {
        r := r - d;
        q := SetBit(q, i);
        high := high + 1;
      }
      i := i - 1;
    }
    LastShift(n);
    if d != 0 {
      QuotientIsUnique(n, d, q, r);
    }
  }

  lemma DoublePower(high: nat, i: nat)
    ensures (2 * high + 2) * Pow2(i) == (high + 1) * Pow2(i + 1)
  {
    assert (high + 1) * (2 * Pow2(i)) == 2 * (high + 1) * Pow2(i);
  }

  lemma LastShift(n: nat)
    ensures ShiftRight(n, 0) == n && Pow2(0) == 1
  {
  }

  lemma QuotientIsUnique(n: nat, d: nat, q: nat, r: nat)
    requires n == q * d + r && r < d
    ensures q == n / d && r == n % d && q <= n
  {
    assert q * d == d * q;
    Divided(n, d, q, r);
    AtLeastOnce(d, q);
    assert n == d * (n / d) + n % d;
  }

  method UDiv128(n: nat, d: nat) returns (q: nat)
    requires n < TWO128 && d < TWO128
    ensures q == if d == 0 then TWO128 - 1 else n / d
  {
    var r;
    q, r := UDivMod128(n, d);
  }

  method UMod128(n: nat, d: nat) returns (r: nat)
    requires n < TWO128 && d < TWO128
    ensures r == if d == 0 then n else n % d
  {
    var q;
    q, r := UDivMod128(n, d);
  }
}
