/** Physical memory as the JavaScript side sees it: a map from addresses to 32-bit
    words, absent words reading as 0. A 64-bit access is a pair of 32-bit ones. */
module Physical {
  const TWO31 := 0x8000_0000
  const TWO32 := 0x1_0000_0000
  const TWO64 := 0x1_0000_0000_0000_0000

  type Word = x: int | 0 <= x < 0x1_0000_0000
  type Quad = x: int | 0 <= x < 0x1_0000_0000_0000_0000
  type Memory = map<int, Word>

  /** JavaScript's conversion of the operands of `&`, `|` and `~`. */
  function ToInt32(x: int): int {
    var r := x % TWO32;
    if r >= TWO31 then r - TWO32 else r
  }

  function Lo(v: Quad): Word { v % TWO32 }

  function Hi(v: Quad): Word { v / TWO32 }

  function Read32(m: Memory, a: int): Word { if a in m then m[a] else 0 }

  function Read64(m: Memory, a: int): Quad {
    Read32(m, a) + Read32(m, a + 4) * TWO32
  }

  function Write32(m: Memory, a: int, v: Word): Memory { m[a := v] }

  function Write64(m: Memory, a: int, v: Quad): Memory { m[a := Lo(v)][a + 4 := Hi(v)] }

  lemma Halves(v: Quad)
    ensures Lo(v) + Hi(v) * TWO32 == v
  {
  }

  lemma WriteRead64(m: Memory, a: int, v: Quad)
    ensures Read64(Write64(m, a, v), a) == v
    ensures forall b :: b != a && b != a + 4 ==> Read32(Write64(m, a, v), b) == Read32(m, b)
  {
    Halves(v);
  }
}
