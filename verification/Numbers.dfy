/** Printing numbers into a bounded buffer and parsing them back. */
module Numbers {
  const TWO64: nat := 0x1_0000_0000_0000_0000
  const TMP_SIZE: nat := 32

  predicate IsSpace(c: char) { c == ' ' || '\t' <= c <= '\r' }

  function DigitChar(d: nat, upper: bool): char
    requires d < 36
  {
    if d < 10 then ('0' as int + d) as char else ((if upper then 'A' else 'a') as int + d - 10) as char
  }

  function DigitVal(c: char): int {
    if '0' <= c <= '9' then c as int - '0' as int
    else if 'a' <= c <= 'z' then c as int - 'a' as int + 10
    else if 'A' <= c <= 'Z' then c as int - 'A' as int + 10
    else -1
  }

  predicate DigitOf(c: char, base: int) { 0 <= DigitVal(c) < base }

  /** A digit character has its value back, and is no space, sign or radix mark. */
  lemma DigitChars(d: nat, upper: bool)
    requires d < 16
    ensures var c := DigitChar(d, upper);
            DigitVal(c) == d && !IsSpace(c) && c !in ['+', '-', 'x', 'X', '\0']
  {
  }

  /** The white space of C. */
  lemma SpacesAre(c: char)
    ensures IsSpace(c) <==> c in {' ', '\t', '\n', 11 as char, 12 as char, '\r'}
  {
  }

  lemma DigitEdges()
    ensures DigitChar(0, false) == '0' && DigitChar(9, true) == '9'
    ensures DigitChar(10, false) == 'a' && DigitChar(35, false) == 'z'
    ensures DigitChar(10, true) == 'A' && DigitChar(35, true) == 'Z'
  {
  }

  /** The digits of a base are the characters of the numbers below it, in either case. */
  lemma DigitOfIff(c: char, base: nat)
    requires base <= 36
    ensures DigitOf(c, base) <==>
            exists d: nat :: d < 36 && d < base && (c == DigitChar(d, false) || c == DigitChar(d, true))
    ensures DigitOf(c, base) ==> c == DigitChar(DigitVal(c), false) || c == DigitChar(DigitVal(c), true)
  {
    if DigitOf(c, base) {
      var d: nat := DigitVal(c);
      assert c == DigitChar(d, false) || c == DigitChar(d, true);
    }
  }

  // ---- the printed text ------------------------------------------------------

  function Tail(v: nat, base: nat, upper: bool): string
    requires 2 <= base <= 16
  {
    if v == 0 then ""
    else
      Shrinks(v, base);
      Tail(v / base, base, upper) + [DigitChar(v % base, upper)]
  }

  function Digits(v: nat, base: nat, upper: bool): string
    requires 2 <= base <= 16
  {
    if v == 0 then "0" else Tail(v, base, upper)
  }

  function Repeat(c: char, n: int): string { seq(if n > 0 then n else 0, _ => c) }

  function Sign(neg: bool): string { if neg then "-" else "" }

  function Printed(v: nat, base: nat, upper: bool, neg: bool, width: int, pad: char): string
    requires 2 <= base <= 16
  {
    var digits := Digits(v, base, upper);
    Repeat(pad, width - |digits| - |Sign(neg)|) + Sign(neg) + digits
  }

  /** The text is as long as the larger of the width and the sign with the digits: pads,
      then the sign, then the digits. */
  lemma PrintedParts(v: nat, base: nat, upper: bool, neg: bool, width: int, pad: char)
    requires 2 <= base <= 16
    ensures var t, digits := Printed(v, base, upper, neg, width, pad), Digits(v, base, upper);
            var body := |digits| + if neg then 1 else 0;
            var fill := |t| - body;
            && |t| == (if width > body then width else body) && fill >= 0
            && (forall i :: 0 <= i < fill ==> t[i] == pad)
            && (neg ==> t[fill] == '-') && t[|t| - |digits|..] == digits
  {
    hide Digits;
  }

  /** All digits are of the case asked for. */
  lemma DigitsHaveCase(v: nat, base: nat, upper: bool)
    requires 2 <= base <= 16
    ensures forall i :: 0 <= i < |Digits(v, base, upper)| ==> InCase(Digits(v, base, upper)[i], upper)
  {
    TailHasCase(v, base, upper);
  }

  predicate InCase(c: char, upper: bool) { c in if upper then "0123456789ABCDEF" else "0123456789abcdef" }

  lemma {:induction false} TailHasCase(v: nat, base: nat, upper: bool)
    requires 2 <= base <= 16
    ensures forall i :: 0 <= i < |Tail(v, base, upper)| ==> InCase(Tail(v, base, upper)[i], upper)
    decreases v
  {
    if v > 0 {
      TailStep(v, base, upper);
      TailHasCase(v / base, base, upper);
      OneOfSixteen(v % base, upper);
      hide Tail, DigitChar;
    }
  }

  lemma OneOfSixteen(d: nat, upper: bool)
    requires d < 16
    ensures DigitChar(d, upper) == (if upper then "0123456789ABCDEF" else "0123456789abcdef")[d]
  {
  }

  lemma TailOfZero(base: nat, upper: bool)
    requires 2 <= base <= 16
    ensures Tail(0, base, upper) == "" && Digits(0, base, upper) == "0"
    ensures forall v: nat :: v > 0 ==> Digits(v, base, upper) == Tail(v, base, upper)
  {
  }

  lemma TailStep(v: nat, base: nat, upper: bool)
    requires 2 <= base <= 16 && v > 0
    ensures Tail(v, base, upper) == Tail(v / base, base, upper) + [DigitChar(v % base, upper)]
    ensures 0 <= v / base < v && 0 <= v % base < 16
  {
    Shrinks(v, base);
  }

  lemma Shrinks(v: nat, b: nat)
    requires b >= 2 && v > 0
    ensures 0 <= v / b < v && 0 <= v % b < b
  {
    var q, r := v / b, v % b;
    assert v == b * q + r;
    var c := b - 2;
    assert b * q == 2 * q + c * q;
    assert q >= 0 ==> c * q >= 0;
    assert q < 0 ==> c * q <= 0;
  }

  function Power(b: nat, n: nat): nat { if n == 0 then 1 else b * Power(b, n - 1) }

  /** 8 to the 22 is more than 2 to the 64. */
  lemma EightToThe22()
    ensures Power(8, 22) > TWO64
  {
    assert Power(8, 11) == 0x2_0000_0000;
    assert Power(8, 22) == 0x4_0000_0000_0000_0000;
  }

  lemma ProductIsNat(x: int, y: int)
    requires x >= 0 && y >= 0
    ensures x * y >= 0
  {
  }

  lemma QuotientBelow(v: nat, base: nat, p: nat)
    requires base >= 8 && v < 8 * p
    ensures v / base < p
  {
    var q := v / base;
    DivMod(v, base);
    ProductIsNat(q, base - 8);
    assert q * base == 8 * q + q * (base - 8);
  }

  lemma {:induction false} TailLength(v: nat, base: nat, upper: bool, n: nat)
    requires 8 <= base <= 16 && v < Power(8, n)
    ensures |Tail(v, base, upper)| <= n
  {
    if v == 0 {
      TailOfZero(base, upper);
    } else {
      hide Tail;
      TailStep(v, base, upper);
      QuotientBelow(v, base, Power(8, n - 1));
      TailLength(v / base, base, upper, n - 1);
    }
  }

  /** The digits of a 64-bit number fit the digit buffer. */
  lemma DigitsFit(v: nat, base: nat, upper: bool)
    requires 8 <= base <= 16 && v < TWO64
    ensures 1 <= |Digits(v, base, upper)| <= 22 < 32 == TMP_SIZE
  {
    EightToThe22();
    TailLength(v, base, upper, 22);
  }

  // ---- the bounded buffer ----------------------------------------------------

  class Output {
    const buf: array<char>
    const size: nat
    var pos: nat
    ghost var text: string

    /** The buffer holds as much of the text as leaves room for a final NUL. */
    ghost predicate Valid()
      reads this, buf
    {
      && size <= buf.Length && pos == |text|
      && forall j :: 0 <= j < pos && j + 1 < size ==> buf[j] == text[j]
    }

    constructor (buf: array<char>, size: nat)
      requires size <= buf.Length
      ensures Valid() && text == "" && this.buf == buf && this.size == size
    {
      this.buf := buf;
      this.size := size;
      pos, text := 0, "";
    }

    method Emit(c: char)
      requires Valid()
      modifies this`pos, this`text, buf
      ensures Valid() && text == old(text) + [c]
      ensures forall j :: size <= j < buf.Length ==> buf[j] == old(buf[j])
    {
      if pos + 1 < size || size == 0 {
        if size != 0 {
          buf[pos] := c;
        }
      }
      pos := pos + 1;
      text := text + [c];
    }

    /** Pads, sign and digits of a number; the digits are collected last one first. */
    method EmitULL(v: nat, base: nat, upper: bool, neg: bool, width: int, pad: char)
      requires Valid() && v < TWO64 && 8 <= base <= 16
      modifies this`pos, this`text, buf
      ensures Valid() && text == old(text) + Printed(v, base, upper, neg, width, pad)
      ensures forall j :: size <= j < buf.Length ==> buf[j] == old(buf[j])
    {
      hide Digits;
      var tmp, i := CollectDigits(v, base, upper);
      var len := i + if neg then 1 else 0;
      EmitPads(len, width, pad);
      if neg {
        Emit('-');
      }
      EmitBackwards(tmp, i, Digits(v, base, upper));
    }

    method EmitPads(len: nat, width: int, pad: char)
      requires Valid()
      modifies this`pos, this`text, buf
      ensures Valid() && text == old(text) + Repeat(pad, width - len)
      ensures forall j :: size <= j < buf.Length ==> buf[j] == old(buf[j])
    {
      var n := len;
      while n < width
        invariant Valid() && len <= n && (n > len ==> n <= width)
        invariant text == old(text) + Repeat(pad, n - len)
        invariant forall j :: size <= j < buf.Length ==> buf[j] == old(buf[j])
        decreases width - n
      {
        Emit(pad);
        n := n + 1;
        assert Repeat(pad, n - len) == Repeat(pad, n - 1 - len) + [pad];
      }
      assert Repeat(pad, n - len) == Repeat(pad, width - len);
    }

    method EmitBackwards(tmp: array<char>, count: nat, ghost digits: string)
      requires Valid() && tmp != buf && count == |digits| <= tmp.Length
      requires forall j :: 0 <= j < count ==> tmp[j] == digits[count - 1 - j]
      modifies this`pos, this`text, buf
      ensures Valid() && text == old(text) + digits
      ensures forall j :: size <= j < buf.Length ==> buf[j] == old(buf[j])
    {
      var i := count;
      while i > 0
        invariant 0 <= i <= count && Valid() && text == old(text) + digits[..count - i]
        invariant forall j :: size <= j < buf.Length ==> buf[j] == old(buf[j])
      {
        i := i - 1;
        Emit(tmp[i]);
      }
    }

    /** The digits, least significant first, in the 32-byte buffer. */
    method CollectDigits(v: nat, base: nat, upper: bool) returns (tmp: array<char>, i: nat)
      requires v < TWO64 && 8 <= base <= 16
      ensures fresh(tmp) && tmp.Length == TMP_SIZE
      ensures i == |Digits(v, base, upper)| <= TMP_SIZE
      ensures forall j :: 0 <= j < i ==> tmp[j] == Digits(v, base, upper)[i - 1 - j]
    {
      tmp := new char[TMP_SIZE];
      i := 0;
      DigitsFit(v, base, upper);
      ghost var full := Digits(v, base, upper);
      if v == 0 {
        tmp[i] := '0';
        i := i + 1;
      }
      hide Digits, Tail, DigitChar;
      TailOfZero(base, upper);
      var left: nat := v;
      while left > 0
        invariant i <= |full| && Tail(left, base, upper) == full[..|full| - i]
        invariant forall j :: 0 <= j < i ==> tmp[j] == full[|full| - 1 - j]
      {
        TailStep(left, base, upper);
        tmp[i] := DigitChar(left % base, upper);
        i := i + 1;
        left := left / base;
      }
      assert |full[..|full| - i]| == 0;
    }

    /** The final NUL, behind the text or at the end of the buffer. */
    method Terminate()
      requires Valid()
      modifies buf
      ensures size > 0 ==> var n := if pos < size then pos else size - 1;
                           buf[n] == '\0' && buf[..n] == text[..n]
      ensures forall j :: size <= j < buf.Length ==> buf[j] == old(buf[j])
    {
      if size != 0 {
        buf[if pos < size then pos else size - 1] := '\0';
      }
    }
  }

  // ---- parsing ---------------------------------------------------------------

  /** The character at `p` of a NUL-terminated string. */
  function At(s: string, p: nat): char { if p < |s| then s[p] else '\0' }

  function SkipSpaces(s: string, p: nat): (q: nat)
    ensures p <= q && (p <= |s| ==> q <= |s|)
    decreases |s| - p
  {
    if p < |s| && IsSpace(s[p]) then SkipSpaces(s, p + 1) else p
  }

  /** Where the digits start, whether a minus sign or a leading octal 0 was taken, and the
      radix that the prefix selects. */
  datatype Head = Head(at: nat, neg: bool, base: int, any: bool)

  function AfterSign(s: string): (r: (nat, bool))
    ensures r.0 <= |s|
  {
    var p := SkipSpaces(s, 0);
    if At(s, p) == '+' then (p + 1, false) else if At(s, p) == '-' then (p + 1, true) else (p, false)
  }

  predicate HexMark(s: string, p: nat) { At(s, p) == '0' && At(s, p + 1) in {'x', 'X'} }

  function HeadOf(s: string, base: int): (h: Head)
    ensures h.at <= |s|
  {
    var (p, neg) := AfterSign(s);
    var marked := (base == 0 || base == 16) && HexMark(s, p);
    var q := if marked then p + 2 else p;
    var radix := if base != 0 then base else if marked then 16 else if At(s, q) == '0' then 8 else 10;
    if radix == 8 && At(s, q) == '0' then Head(q + 1, neg, radix, true) else Head(q, neg, radix, false)
  }

  function DigitsEnd(s: string, p: nat, base: int): (q: nat)
    requires p <= |s|
    ensures p <= q <= |s| && forall j :: p <= j < q ==> DigitOf(s[j], base)
    ensures q < |s| ==> !DigitOf(s[q], base)
    decreases |s| - p
  {
    if p < |s| && DigitOf(s[p], base) then DigitsEnd(s, p + 1, base) else p
  }

  /** The number that a string of digits denotes. */
  function Number(t: string, base: int): int {
    if t == "" then 0 else Number(t[..|t| - 1], base) * base + DigitVal(t[|t| - 1])
  }

  /** The value of the longest numeral, modulo 2 to the 64, negated after a minus sign. */
  function Parsed(s: string, base: int): int {
    var h := HeadOf(s, base);
    var v := Number(s[h.at..DigitsEnd(s, h.at, h.base)], h.base) % TWO64;
    if h.neg then (TWO64 - v) % TWO64 else v
  }

  function ParsedEnd(s: string, base: int): int {
    var h := HeadOf(s, base);
    var e := DigitsEnd(s, h.at, h.base);
    if h.any || e > h.at || !h.neg then e else e - 1
  }

  lemma WrappedStep(x: int, base: int, d: int)
    ensures (x % TWO64 * base + d) % TWO64 == (x * base + d) % TWO64
  {
    var q, r := x / TWO64, x % TWO64;
    assert x == TWO64 * q + r;
    assert x * base == TWO64 * (q * base) + r * base;
    var y := r * base + d;
    var k := q * base;
    assert x * base + d == y + TWO64 * k;
  }

  method ScanSign(s: string) returns (p: nat, neg: bool)
    ensures (p, neg) == AfterSign(s) && (neg ==> p > 0)
  {
    p, neg := 0, false;
    while IsSpace(At(s, p))
      invariant p <= |s| && SkipSpaces(s, 0) == SkipSpaces(s, p)
      decreases |s| - p
    {
      p := p + 1;
    }
    if At(s, p) == '+' {
      p := p + 1;
    } else if At(s, p) == '-' {
      neg := true;
      p := p + 1;
    }
  }

  method ScanPrefix(s: string, start: nat, neg: bool, base: int) returns (p: nat, radix: int, any: bool)
    requires AfterSign(s) == (start, neg)
    ensures HeadOf(s, base) == Head(p, neg, radix, any) && start <= p
  {
    p, radix, any := start, base, false;
    if (base == 0 || base == 16) && HexMark(s, p) {
      p := p + 2;
      if base == 0 {
        radix := 16;
      }
    } else if base == 0 {
      radix := if At(s, p) == '0' then 8 else 10;
    }
    if radix == 8 && At(s, p) == '0' {
      p := p + 1;
      any := true;
    }
  }

  /** strtoull: the scan, with an accumulator that wraps around. */
  method StrToULL(s: string, base: int) returns (v: int, end: int)
    ensures v == Parsed(s, base) && end == ParsedEnd(s, base)
  {
    hide HeadOf, Number, AfterSign;
    var start, neg := ScanSign(s);
    var p, radix, any := ScanPrefix(s, start, neg, base);
    var e;
    v, e := ScanDigits(s, p, radix);
    any := any || e > p;
    end := if any then e else e - (if neg then 1 else 0);
    v := if neg then (TWO64 - v) % TWO64 else v;
  }

  method ScanDigits(s: string, start: nat, base: int) returns (v: int, p: nat)
    requires start <= |s|
    ensures p == DigitsEnd(s, start, base) && v == Number(s[start..p], base) % TWO64
  {
    v, p := 0, start;
    while DigitOf(At(s, p), base)
      invariant start <= p <= |s| && DigitsEnd(s, start, base) == DigitsEnd(s, p, base)
      invariant v == Number(s[start..p], base) % TWO64
      decreases |s| - p
    {
      assert s[start..p + 1][..p - start] == s[start..p];
      WrappedStep(Number(s[start..p], base), base, DigitVal(s[p]));
      v := (v * base + DigitVal(s[p])) % TWO64;
      p := p + 1;
    }
  }

  // ---- round trips -----------------------------------------------------------

  ghost predicate AllDigits(t: string, base: int) { forall i :: 0 <= i < |t| ==> DigitOf(t[i], base) }

  lemma {:induction false} SkipFrom(s: string, p: nat, k: nat)
    requires p <= k < |s| && !IsSpace(s[k]) && forall j :: p <= j < k ==> IsSpace(s[j])
    ensures SkipSpaces(s, p) == k
    decreases k - p
  {
    if p < k {
      SkipFrom(s, p + 1, k);
    }
  }

  lemma {:induction false} LeadingZero(t: string, base: int)
    requires t != "" && t[0] == '0'
    ensures Number(t, base) == Number(t[1..], base)
  {
    if |t| > 1 {
      LeadingZero(t[..|t| - 1], base);
      assert t[..|t| - 1][1..] == t[1..][..|t| - 2];
    }
  }

  lemma {:induction false} LeadingZeros(n: int, t: string, base: int)
    ensures Number(Repeat('0', n) + t, base) == Number(t, base)
    decreases n
  {
    if n > 0 {
      LeadingZero(Repeat('0', n) + t, base);
      assert (Repeat('0', n) + t)[1..] == Repeat('0', n - 1) + t;
      LeadingZeros(n - 1, t, base);
    } else {
      assert Repeat('0', n) + t == t;
    }
  }

  lemma NumberOfMore(t: string, c: char, base: int)
    ensures Number(t + [c], base) == Number(t, base) * base + DigitVal(c)
  {
    assert (t + [c])[..|t|] == t;
  }

  lemma DivMod(v: nat, b: nat)
    requires b > 0
    ensures v == v / b * b + v % b
  {
  }

  /** The digits of a number denote it. */
  lemma {:induction false} TailDenotes(v: nat, base: nat, upper: bool)
    requires base in {8, 10, 16}
    ensures Number(Tail(v, base, upper), base) == v && AllDigits(Tail(v, base, upper), base)
  {
    if v > 0 {
      TailStep(v, base, upper);
      TailDenotes(v / base, base, upper);
      DigitChars(v % base, upper);
      Shrinks(v, base);
      DivMod(v, base);
      hide Number, Tail, DigitChar, DigitVal, IsSpace;
      NumberOfMore(Tail(v / base, base, upper), DigitChar(v % base, upper), base);
    }
  }

  lemma DigitsDenote(v: nat, base: nat, upper: bool)
    requires base in {8, 10, 16} && v < TWO64
    ensures var t := Digits(v, base, upper);
            t != "" && Number(t, base) == v && AllDigits(t, base)
  {
    TailDenotes(v, base, upper);
    DigitsFit(v, base, upper);
    if v == 0 {
      assert "0"[..0] == "";
    }
  }

  function Signed(neg: bool, v: int): int { if neg then (TWO64 - v) % TWO64 else v }

  function Line(k: int, neg: bool, t: string, rest: string): string { Repeat(' ', k) + Sign(neg) + t + rest }

  lemma SignAt(s: string, n: nat, neg: bool)
    requires n < |s| && forall j :: 0 <= j < n ==> IsSpace(s[j])
    requires if neg then s[n] == '-' else !IsSpace(s[n]) && s[n] !in {'+', '-'}
    ensures AfterSign(s) == (n + |Sign(neg)|, neg)
  {
    SkipFrom(s, 0, n);
  }

  lemma PlainDigit(c: char, base: nat)
    requires base in {8, 10, 16} && DigitOf(c, base)
    ensures !IsSpace(c) && c !in {'+', '-', 'x', 'X', '\0'}
  {
  }

  lemma HeadOfLine(k: int, neg: bool, t: string, rest: string, base: nat)
    requires base in {8, 10, 16} && t != "" && AllDigits(t, base)
    requires rest != "" ==> rest[0] == '-'
    ensures var p, skipped := |Repeat(' ', k)| + |Sign(neg)|, base == 8 && t[0] == '0';
            HeadOf(Line(k, neg, t, rest), base) == Head(if skipped then p + 1 else p, neg, base, skipped)
  {
    var s := Line(k, neg, t, rest);
    var n, p := |Repeat(' ', k)|, |Repeat(' ', k) + Sign(neg)|;
    PlainDigit(t[0], base);
    if |t| > 1 {
      PlainDigit(t[1], base);
    }
    hide IsSpace, DigitOf, AfterSign;
    assert IsSpace(' ') by {
      SpaceIsSpace();
    }
    assert s[n] == if neg then '-' else t[0];
    SignAt(s, n, neg);
    assert At(s, p) == t[0];
    assert At(s, p + 1) == if |t| > 1 then t[1] else if rest != "" then rest[0] else '\0';
  }

  lemma SpaceIsSpace()
    ensures IsSpace(' ')
  {
  }

  /** What the parser makes of spaces, a sign, digits, and something that is no digit. */
  lemma ParseOf(k: int, neg: bool, t: string, rest: string, base: nat)
    requires base in {8, 10, 16} && t != "" && AllDigits(t, base)
    requires rest != "" ==> rest[0] == '-'
    ensures var s := Line(k, neg, t, rest);
            && Parsed(s, base) == Signed(neg, Number(t, base) % TWO64)
            && ParsedEnd(s, base) == |s| - |rest|
  {
    hide Parsed, ParsedEnd, HeadOf, Number, Line;
    HeadOfLine(k, neg, t, rest, base);
    LineDigits(k, neg, t, rest, base);
    var s := Line(k, neg, t, rest);
    var h := HeadOf(s, base);
    if h.any {
      LeadingZero(t, base);
    }
    ParsedBy(s, base, h, if h.any then t[1..] else t, |s| - |rest|);
  }

  /** Both ends of the numeral determine the result. */
  lemma ParsedBy(s: string, base: int, h: Head, numeral: string, e: int)
    requires h == HeadOf(s, base) && h.at <= e <= |s| && numeral == s[h.at..e] && (h.any || e > h.at)
    requires AllDigits(numeral, h.base) && (e < |s| ==> !DigitOf(s[e], h.base))
    ensures Parsed(s, base) == Signed(h.neg, Number(numeral, h.base) % TWO64) && ParsedEnd(s, base) == e
  {
    hide HeadOf, Number, DigitOf;
    forall j | h.at <= j < e ensures DigitOf(s[j], h.base) {
      assert s[j] == numeral[j - h.at];
    }
    assert DigitsEnd(s, h.at, h.base) == e;
  }

  lemma LineDigits(k: int, neg: bool, t: string, rest: string, base: nat)
    requires base in {8, 10, 16} && t != "" && AllDigits(t, base)
    requires rest != "" ==> rest[0] == '-'
    ensures var s, p := Line(k, neg, t, rest), |Repeat(' ', k)| + |Sign(neg)|;
            var e := p + |t|;
            && |s| == e + |rest| && s[p..e] == t && s[p + 1..e] == t[1..]
            && AllDigits(t[1..], base) && (e < |s| ==> !DigitOf(s[e], base))
  {
  }

  /** Printing and parsing is the identity on 64-bit numbers, unless zeros are padded in
      front of a minus sign: then the parser stops at the sign and finds 0. */
  lemma RoundTrip(v: nat, base: nat, upper: bool, neg: bool, width: int, pad: char)
    requires v < TWO64 && base in {8, 10, 16} && pad in {' ', '0'}
    ensures Parsed(Printed(v, base, upper, neg, width, pad), base) == Signed(neg, v) <==>
            !(neg && pad == '0' && width > |Digits(v, base, upper)| + 1 && v != 0)
    ensures ParsedEnd(Printed(v, base, upper, neg, width, pad), base) == |Printed(v, base, upper, neg, width, pad)| <==>
            !(neg && pad == '0' && width > |Digits(v, base, upper)| + 1)
  {
    hide Parsed, ParsedEnd, Digits, Number, AllDigits;
    var t := Digits(v, base, upper);
    var fill := width - |t| - |Sign(neg)|;
    var s := Printed(v, base, upper, neg, width, pad);
    DigitsDenote(v, base, upper);
    if pad == ' ' {
      ParseOf(fill, neg, t, "", base);
      assert s == Line(fill, neg, t, "");
    } else if !neg {
      ZerosAreDigits(fill, t, base);
      LeadingZeros(fill, t, base);
      ParseOf(0, false, Repeat('0', fill) + t, "", base);
      assert s == Line(0, false, Repeat('0', fill) + t, "");
    } else if fill <= 0 {
      ParseOf(0, neg, t, "", base);
      assert s == Line(0, neg, t, "");
    } else {
      ZerosAreDigits(fill, "", base);
      LeadingZeros(fill, "", base);
      EmptyNumber(base);
      ParseOf(0, false, Repeat('0', fill) + "", "-" + t, base);
      assert s == Line(0, false, Repeat('0', fill) + "", "-" + t);
    }
  }

  lemma EmptyNumber(base: int)
    ensures Number("", base) == 0 && AllDigits("", base)
  {
  }

  lemma ZerosAreDigits(n: int, t: string, base: nat)
    requires base in {8, 10, 16} && AllDigits(t, base)
    ensures AllDigits(Repeat('0', n) + t, base)
  {
  }

  /** A 64-bit pattern as a two's complement number. */
  function ToInt64(x: int): int
    requires 0 <= x < TWO64
  {
    if x < TWO64 / 2 then x else x - TWO64
  }

  /** %d prints a signed number, and strtoll reads it back. */
  lemma SignedRoundTrip(x: int, width: int, pad: char)
    requires -(TWO64 / 2) <= x < TWO64 / 2 && pad in {' ', '0'}
    ensures var magnitude := if x < 0 then -x else x;
            ToInt64(Parsed(Printed(magnitude, 10, false, x < 0, width, pad), 10)) == x <==>
            !(x < 0 && pad == '0' && width > |Digits(magnitude, 10, false)| + 1)
  {
    hide Digits, Printed;
    var magnitude := if x < 0 then -x else x;
    RoundTrip(magnitude, 10, false, x < 0, width, pad);
  }

  /** A number printed into a large enough buffer is there to be parsed; in a smaller one
      the front of its text is. */
  method PrintNumber(buf: array<char>, size: nat, v: nat, base: nat, upper: bool, neg: bool, width: int, pad: char)
    returns (n: nat)
    requires 0 < size <= buf.Length && v < TWO64 && 8 <= base <= 16
    modifies buf
    ensures var text := Printed(v, base, upper, neg, width, pad);
            && n == |text|
            && (n < size ==> buf[..n] == text && buf[n] == '\0')
            && (n >= size ==> buf[..size - 1] == text[..size - 1] && buf[size - 1] == '\0')
    ensures buf[size..] == old(buf[size..])
  {
    hide Printed;
    var o := new Output(buf, size);
    o.EmitULL(v, base, upper, neg, width, pad);
    assert o.text == Printed(v, base, upper, neg, width, pad);
    o.Terminate();
    n := o.pos;
  }
}
