/** JavaScript numbers that are integers: doubles with 53 significant bits. No value here
    comes near the largest double, so the exponent has no bound. */
module Doubles {
  const TWO53 := 0x20_0000_0000_0000

  function Pow2(k: nat): (p: nat)
    ensures p > 0
  {
    if k == 0 then 1 else 2 * Pow2(k - 1)
  }

  /** The unit of the last of 53 significant bits of a number. */
  function UnitFrom(v: nat, unit: nat): (u: nat)
    requires unit > 0
    ensures u > 0
    decreases if v > unit then v - unit else 0
  {
    if v < TWO53 * unit then unit else UnitFrom(v, 2 * unit)
  }

  /** The nearest multiple of the unit, the even one of two. */
  function Nearest(v: nat, unit: nat): nat
    requires unit > 0
  {
    var q, r := v / unit, v % unit;
    if 2 * r < unit || (2 * r == unit && q % 2 == 0) then q * unit else (q + 1) * unit
  }

  /** A natural number as a JavaScript number: rounded to 53 significant bits. */
  function DoubleOf(v: nat): nat { Nearest(v, UnitFrom(v, 1)) }

  function Round(x: int): int {
    var d: int := DoubleOf(if x < 0 then -x else x);
    if x < 0 then -d else d
  }

  function Scaled(m: int, k: nat): int { m * Pow2(k) }

  /** The number has at most 53 significant bits. */
  ghost predicate IsDouble(x: int) {
    exists m, k: nat :: -TWO53 < m < TWO53 && x == Scaled(m, k)
  }

  lemma ProductIsNat(a: int, b: int)
    requires a >= 0 && b >= 0
    ensures a * b >= 0
  {
  }

  lemma TimesKeepsOrder(a: int, b: int, c: int)
    requires a <= b && c >= 0
    ensures a * c <= b * c
  {
    ProductIsNat(b - a, c);
    assert b * c == a * c + (b - a) * c;
  }

  lemma {:induction false} SumOfPowers(i: nat, j: nat)
    ensures Pow2(i + j) == Pow2(i) * Pow2(j)
    decreases j
  {
    if j > 0 {
      SumOfPowers(i, j - 1);
      assert Pow2(i) * (2 * Pow2(j - 1)) == 2 * (Pow2(i) * Pow2(j - 1));
    } else {
      assert Pow2(i) * 1 == Pow2(i);
    }
  }

  lemma {:induction false} PowersGrow(i: nat, j: nat)
    ensures i <= j ==> Pow2(i) <= Pow2(j)
    ensures i < j ==> 2 * Pow2(i) <= Pow2(j)
    decreases j
  {
    if i < j {
      PowersGrow(i, j - 1);
    }
  }

  lemma TenMore(k: nat)
    ensures Pow2(k + 10) == 1024 * Pow2(k)
  {
    assert Pow2(k + 2) == 4 * Pow2(k);
    assert Pow2(k + 4) == 16 * Pow2(k);
    assert Pow2(k + 6) == 64 * Pow2(k);
    assert Pow2(k + 8) == 256 * Pow2(k);
  }

  lemma FiftyThreeMore(k: nat)
    ensures Pow2(k + 52) == TWO53 / 2 * Pow2(k)
    ensures Pow2(k + 53) == TWO53 * Pow2(k)
  {
    TenMore(k);
    TenMore(k + 10);
    TenMore(k + 20);
    TenMore(k + 30);
    TenMore(k + 40);
    assert Pow2(k + 52) == 4 * Pow2(k + 50);
  }

  lemma Division(v: nat, u: nat)
    requires u > 0
    ensures v == v / u * u + v % u && 0 <= v % u < u
  {
  }

  lemma MultipleHasNoRest(q: int, u: nat)
    requires u > 0
    ensures (q * u) % u == 0 && (q * u) / u == q
  {
    var x := q * u;
    var d, r := x / u, x % u;
    assert x == d * u + r;
    assert (q - d) * u == r;
    if q - d >= 1 {
      TimesKeepsOrder(1, q - d, u);
    } else if q - d <= -1 {
      TimesKeepsOrder(q - d, -1, u);
    }
  }

  // ---- the unit --------------------------------------------------------------

  /** The unit is the least power of two with which 53 bits are enough. */
  lemma {:induction false} UnitFromPower(v: nat, i: nat) returns (j: nat)
    ensures j >= i && UnitFrom(v, Pow2(i)) == Pow2(j) && v < TWO53 * Pow2(j)
    ensures j > i ==> v >= TWO53 * Pow2(j - 1)
    decreases if v > Pow2(i) then v - Pow2(i) else 0
  {
    if v < TWO53 * Pow2(i) {
      return i;
    }
    j := UnitFromPower(v, i + 1);
  }

  lemma UnitOf(v: nat) returns (j: nat)
    ensures UnitFrom(v, 1) == Pow2(j) && v < TWO53 * Pow2(j) && (j > 0 ==> v >= TWO53 * Pow2(j - 1))
  {
    j := UnitFromPower(v, 0);
  }

  // ---- rounding --------------------------------------------------------------

  lemma NearestMeans(v: nat, u: nat)
    requires u > 0
    ensures var q := v / u;
            && (Nearest(v, u) == q * u || (Nearest(v, u) == (q + 1) * u && v % u != 0))
            && (Nearest(v, u) == v <==> v % u == 0)
  {
    Division(v, u);
    assert (v / u + 1) * u == v / u * u + u;
  }

  lemma SmallIsExact(v: nat)
    requires v < TWO53
    ensures DoubleOf(v) == v
  {
  }

  /** From 2^53 on there are no odd doubles. */
  lemma LargeIsEven(v: nat)
    requires v >= TWO53
    ensures DoubleOf(v) % 2 == 0
  {
    hide Nearest, UnitFrom;
    var j := UnitOf(v);
    NearestMeans(v, Pow2(j));
    var q := v / Pow2(j);
    EvenProduct(q, Pow2(j - 1));
    EvenProduct(q + 1, Pow2(j - 1));
  }

  lemma EvenProduct(q: nat, half: nat)
    ensures (q * (2 * half)) % 2 == 0
  {
    var h := q * half;
    assert q * (2 * half) == 2 * h;
  }

  /** A natural number is rounded to itself exactly if it has at most 53 significant
      bits. */
  lemma ExactIff(v: nat)
    ensures DoubleOf(v) == v <==> IsDouble(v)
  {
    var j := UnitOf(v);
    var u := Pow2(j);
    NearestMeans(v, u);
    hide Nearest, UnitFrom, Pow2;
    if v % u == 0 {
      Division(v, u);
      QuotientBelow(v, u);
      assert v == Scaled(v / u, j);
    }
    if IsDouble(v) {
      var m, k: nat :| -TWO53 < m < TWO53 && v == Scaled(m, k);
      UnitDivides(v, j, m, k);
    }
  }

  lemma QuotientBelow(v: nat, u: nat)
    requires u > 0 && v < TWO53 * u
    ensures v / u < TWO53
  {
    Division(v, u);
    if v / u >= TWO53 {
      TimesKeepsOrder(TWO53, v / u, u);
    }
  }

  lemma UnitDivides(v: nat, j: nat, m: int, k: nat)
    requires v < TWO53 * Pow2(j) && (j > 0 ==> v >= TWO53 * Pow2(j - 1))
    requires m < TWO53 && v == Scaled(m, k)
    ensures v % Pow2(j) == 0
  {
    if j <= k {
      SumOfPowers(k - j, j);
      assert v == (m * Pow2(k - j)) * Pow2(j);
      MultipleHasNoRest(m * Pow2(k - j), Pow2(j));
    } else {
      PowersGrow(k, j - 1);
      TimesKeepsOrder(m, TWO53 - 1, Pow2(k));
      assert false;
    }
  }

  /** Rounding gives a double. */
  lemma DoubleOfIsDouble(v: nat)
    ensures IsDouble(DoubleOf(v))
  {
    var j := UnitOf(v);
    var u, q := Pow2(j), v / Pow2(j);
    NearestMeans(v, u);
    QuotientBelow(v, u);
    hide Nearest, UnitFrom;
    if DoubleOf(v) == q * u {
      assert DoubleOf(v) == Scaled(q, j);
    } else if q + 1 < TWO53 {
      assert DoubleOf(v) == Scaled(q + 1, j);
    } else {
      assert DoubleOf(v) == Scaled(TWO53 / 2, j + 1);
    }
  }

  lemma NegativeIsDouble(x: int)
    ensures IsDouble(-x) <==> IsDouble(x)
  {
    if IsDouble(-x) {
      var m, k: nat :| -TWO53 < m < TWO53 && -x == Scaled(m, k);
      assert x == Scaled(-m, k);
    }
    if IsDouble(x) {
      var m, k: nat :| -TWO53 < m < TWO53 && x == Scaled(m, k);
      assert -x == Scaled(-m, k);
    }
  }

  /** Rounding changes exactly what is no double, and gives a double. */
  lemma RoundIff(x: int)
    ensures Round(x) == x <==> IsDouble(x)
    ensures IsDouble(Round(x))
  {
    hide DoubleOf, IsDouble;
    NegativeIsDouble(x);
    ExactIff(if x < 0 then -x else x);
    DoubleOfIsDouble(if x < 0 then -x else x);
    if x < 0 {
      NegativeIsDouble(DoubleOf(-x));
    }
  }

  lemma SmallIsDouble(x: int)
    requires -TWO53 <= x <= TWO53
    ensures IsDouble(x) && Round(x) == x
  {
    if x == TWO53 {
      assert x == Scaled(TWO53 / 2, 1);
    } else if x == -TWO53 {
      assert x == Scaled(-(TWO53 / 2), 1);
    } else {
      assert x == Scaled(x, 0);
    }
    RoundIff(x);
  }

  /** Rounding does not pass a power of two. */
  lemma RoundKeepsPowers(v: nat, p: nat)
    ensures Pow2(p) <= v ==> Pow2(p) <= DoubleOf(v)
    ensures v <= Pow2(p) ==> DoubleOf(v) <= Pow2(p)
  {
    hide Nearest, UnitFrom, Pow2;
    var j := UnitOf(v);
    if j <= p {
      SumOfPowers(p - j, j);
      NearestKeepsMultiples(v, Pow2(j), Pow2(p - j));
    } else {
      PowersGrow(p, j - 1);
      RoundIsLarge(v, j);
    }
  }

  /** Rounding to multiples of the unit does not pass one. */
  lemma NearestKeepsMultiples(v: nat, u: nat, n: nat)
    requires u > 0
    ensures n * u <= v ==> n * u <= Nearest(v, u)
    ensures v <= n * u ==> Nearest(v, u) <= n * u
  {
    hide Nearest;
    var q := v / u;
    NearestMeans(v, u);
    Division(v, u);
    Expand(q, u);
    if q >= n {
      TimesKeepsOrder(n, q, u);
    } else {
      TimesKeepsOrder(q + 1, n, u);
    }
  }

  lemma Expand(q: int, u: int)
    ensures (q + 1) * u == q * u + u
  {
  }

  lemma RoundIsLarge(v: nat, j: nat)
    requires j > 0 && UnitFrom(v, 1) == Pow2(j) && v >= TWO53 * Pow2(j - 1)
    ensures DoubleOf(v) >= Pow2(j) && v >= Pow2(j)
  {
    hide Nearest, UnitFrom;
    NearestKeepsMultiples(v, Pow2(j), 1);
  }

  /** Little more than a large power of two is rounded down to it. */
  lemma RoundsDown(p: nat, b: nat)
    requires p >= 62 && b < 256
    ensures DoubleOf(Pow2(p) + b) == Pow2(p)
  {
    hide UnitFrom, Nearest, DoubleOf;
    var i: nat := p - 52;
    PowerAndUnit(i);
    hide Pow2;
    UnitIs(Pow2(p) + b, i);
    NearestBelow(Pow2(p) + b, TWO53 / 2, b, Pow2(i));
    assert DoubleOf(Pow2(p) + b) == Nearest(Pow2(p) + b, Pow2(i)) by {
      DoubleIs(Pow2(p) + b);
    }
  }

  lemma DoubleIs(v: nat)
    ensures DoubleOf(v) == Nearest(v, UnitFrom(v, 1))
  {
  }

  lemma PowerAndUnit(i: nat)
    requires i >= 10
    ensures Pow2(i + 52) == TWO53 / 2 * Pow2(i) == TWO53 * Pow2(i - 1) && Pow2(i) >= 1024
  {
    FiftyThreeMore(i);
    TenMore(i - 10);
    hide Pow2;
    FiftyThreeMore(i - 1);
  }

  lemma NearestBelow(v: nat, q: nat, r: nat, u: nat)
    requires v == q * u + r && 2 * r < u
    ensures Nearest(v, u) == q * u
  {
    DivisionIs(v, q, r, u);
  }

  lemma UnitIs(v: nat, i: nat)
    requires i > 0 && TWO53 * Pow2(i - 1) <= v < TWO53 * Pow2(i)
    ensures UnitFrom(v, 1) == Pow2(i)
  {
    hide UnitFrom, Pow2;
    var j := UnitOf(v);
    if j < i {
      PowersGrow(j, i - 1);
    } else if j > i {
      PowersGrow(i, j - 1);
    }
  }

  lemma DivisionIs(v: nat, q: nat, r: nat, u: nat)
    requires v == q * u + r && r < u
    ensures v / u == q && v % u == r
  {
    MultipleHasNoRest(q, u);
    Division(v, u);
    var d := v / u;
    assert (q - d) * u == v % u - r;
    if q - d >= 1 {
      TimesKeepsOrder(1, q - d, u);
    } else if q - d <= -1 {
      TimesKeepsOrder(q - d, -1, u);
    }
  }
}
