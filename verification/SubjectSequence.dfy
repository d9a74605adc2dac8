/** What section 7.22.1.4 of the C11 standard asks of strtoull, and exactly when the
    parser of the kernel's C library does it. */
module SubjectSequence {
  import opened Numbers

  // ---- the standard ----------------------------------------------------------

  predicate HexForm(u: string) {
    |u| > 2 && u[0] == '0' && u[1] in {'x', 'X'} && forall j :: 2 <= j < |u| ==> DigitOf(u[j], 16)
  }

  ghost predicate DigitsOf(u: string, base: int) { u != "" && AllDigits(u, base) }

  /** Without a base, an integer constant of C; with one, digits of that base. */
  ghost predicate IsNumeral(u: string, base: int) {
    || ((base == 0 || base == 16) && HexForm(u))
    || (if base != 0 then DigitsOf(u, base)
        else if u != "" && u[0] == '0' then DigitsOf(u, 8)
        else DigitsOf(u, 10))
  }

  function Magnitude(u: string, base: int): int {
    if (base == 0 || base == 16) && HexForm(u) then Number(u[2..], 16)
    else if base != 0 then Number(u, base)
    else if u != "" && u[0] == '0' then Number(u, 8)
    else Number(u, 10)
  }

  predicate Signs(t: string) { t != "" && t[0] in {'+', '-'} }

  function Unsigned(t: string): string { if Signs(t) then t[1..] else t }

  ghost predicate IsSubject(t: string, base: int) { IsNumeral(Unsigned(t), base) }

  /** `s[p..e]` is the longest initial part of `s[p..]` that has the expected form. */
  ghost predicate Longest(s: string, p: nat, e: nat, base: int) {
    && p < e <= |s| && IsSubject(s[p..e], base)
    && forall f :: e < f <= |s| ==> !IsSubject(s[p..f], base)
  }

  ghost predicate NoSubject(s: string, p: nat, base: int) {
    forall f :: p < f <= |s| ==> !IsSubject(s[p..f], base)
  }

  /** The largest value stands for all that are too large. */
  function Converted(t: string, base: int): int {
    var n := Magnitude(Unsigned(t), base);
    if n > 0xFFFF_FFFF_FFFF_FFFF then 0xFFFF_FFFF_FFFF_FFFF
    else if Signs(t) && t[0] == '-' && n > 0 then 0x1_0000_0000_0000_0000 - n
    else n
  }

  /** `v` is the value and `end` the end that the standard asks for. */
  ghost predicate MeetsC11(s: string, base: int, v: int, end: int) {
    var p := SkipSpaces(s, 0);
    && (forall e: nat :: Longest(s, p, e, base) ==> v == Converted(s[p..e], base) && end == e)
    && (NoSubject(s, p, base) ==> v == 0 && end == 0)
  }

  // ---- when the code does it ---------------------------------------------------

  /** A hexadecimal mark with no hexadecimal digit behind it. */
  predicate BareMark(s: string, q: nat, base: int) {
    (base == 0 || base == 16) && HexMark(s, q) && !DigitOf(At(s, q + 2), 16)
  }

  predicate NoDigits(s: string, q: nat, base: int) { !DigitOf(At(s, q), if base == 0 then 10 else base) }

  /** After a bare mark the code stops too late, unless the sign makes it step back; when
      it finds nothing it stays behind the spaces and a plus sign; and a value that does
      not fit wraps around. */
  predicate AsInC11(s: string, base: int) {
    var (q, neg) := AfterSign(s);
    if BareMark(s, q, base) then neg
    else if NoDigits(s, q, base) then !IsSpace(At(s, 0)) && At(s, 0) != '+'
    else
      var h := HeadOf(s, base);
      var n := Number(s[h.at..DigitsEnd(s, h.at, h.base)], h.base);
      n < TWO64 || Signed(neg, n % TWO64) == TWO64 - 1
  }

  /** The parts of a candidate: its sign, and the text behind the sign. */
  lemma Behind(s: string, e: nat)
    requires SkipSpaces(s, 0) < e <= |s|
    ensures var p := SkipSpaces(s, 0);
            var (q, neg) := AfterSign(s);
            && p <= q <= e && q <= p + 1 && Unsigned(s[p..e]) == s[q..e]
            && (Signs(s[p..e]) && s[p..e][0] == '-' <==> neg)
  {
    var p := SkipSpaces(s, 0);
    var (q, neg) := AfterSign(s);
    assert At(s, p) == s[p..e][0];
    if q == p + 1 {
      assert s[p..e][1..] == s[q..e];
    }
  }

  lemma SliceDigits(s: string, q: nat, e: nat, base: int)
    requires q <= e <= |s|
    ensures AllDigits(s[q..e], base) <==> forall j :: q <= j < e ==> DigitOf(s[j], base)
  {
    var u := s[q..e];
    if AllDigits(u, base) {
      forall j | q <= j < e ensures DigitOf(s[j], base) {
        assert s[j] == u[j - q];
      }
    }
  }

  lemma SliceHexForm(s: string, q: nat, e: nat)
    requires q <= e <= |s|
    ensures HexForm(s[q..e]) <==> q + 2 < e && HexMark(s, q) && forall j :: q + 2 <= j < e ==> DigitOf(s[j], 16)
  {
    var u := s[q..e];
    if HexForm(u) {
      forall j | q + 2 <= j < e ensures DigitOf(s[j], 16) {
        assert s[j] == u[j - q];
      }
      assert At(s, q) == u[0] && At(s, q + 1) == u[1];
    }
    if q + 2 < e && HexMark(s, q) {
      assert u[0] == At(s, q) && u[1] == At(s, q + 1);
    }
  }

  lemma MarkIsNoDigit(c: char, base: int)
    requires c in {'x', 'X'} && base <= 16
    ensures !DigitOf(c, base)
  {
  }

  /** Where the longest numeral behind the sign ends. */
  function NumeralEnd(s: string, base: int): (e: nat)
    ensures AfterSign(s).0 <= e <= |s|
  {
    var q := AfterSign(s).0;
    var h := HeadOf(s, base);
    if BareMark(s, q, base) then q + 1 else if NoDigits(s, q, base) then q else DigitsEnd(s, h.at, h.base)
  }

  lemma ZeroIsDigit(base: int)
    requires base >= 2
    ensures DigitOf('0', base) && !DigitOf('\0', base)
  {
  }

  /** Nothing behind the end of the digits is a digit, so no longer text is a numeral. */
  lemma NothingLonger(s: string, base: int, f: nat)
    requires (base == 0 || 2 <= base <= 36) && NumeralEnd(s, base) < f <= |s|
    ensures !IsNumeral(s[AfterSign(s).0..f], base)
  {
    hide DigitOf, AfterSign, IsSpace, HexForm;
    var q, h := AfterSign(s).0, HeadOf(s, base);
    var u, e := s[q..f], DigitsEnd(s, h.at, h.base);
    SliceHexForm(s, q, f);
    assert u[0] == s[q];
    var radix := if base != 0 then base else if s[q] == '0' then 8 else 10;
    ZeroIsDigit(if base == 0 then 10 else base);
    SliceDigits(s, q, f, radix);
    if HexMark(s, q) && (base == 0 || base == 16) {
      MarkIsNoDigit(s[q + 1], radix);
      assert !BareMark(s, q, base) ==> !DigitOf(s[e], 16) && e >= q + 2;
    } else if !NoDigits(s, q, base) {
      assert !DigitOf(s[e], radix);
    }
  }

  lemma NumeralThere(s: string, base: int)
    requires (base == 0 || 2 <= base <= 36) && NumeralEnd(s, base) > AfterSign(s).0
    ensures IsNumeral(s[AfterSign(s).0..NumeralEnd(s, base)], base)
    ensures var h := HeadOf(s, base);
            Magnitude(s[AfterSign(s).0..NumeralEnd(s, base)], base) ==
              if BareMark(s, AfterSign(s).0, base) then 0 else Number(s[h.at..DigitsEnd(s, h.at, h.base)], h.base)
  {
    hide DigitOf, AfterSign, IsSpace, HexForm, Number;
    var q, h, f := AfterSign(s).0, HeadOf(s, base), NumeralEnd(s, base);
    var u := s[q..f];
    SliceHexForm(s, q, f);
    assert u[0] == s[q];
    var radix := if base != 0 then base else if s[q] == '0' then 8 else 10;
    ZeroIsDigit(radix);
    ZeroIsDigit(10);
    ZeroIsDigit(16);
    SliceDigits(s, q, f, radix);
    if BareMark(s, q, base) {
      assert u == "0";
      ZeroIsZero(radix);
    } else if h.any {
      LeadingZero(u, 8);
      assert u[1..] == s[h.at..f];
    } else if h.at == q + 2 {
      assert u[2..] == s[h.at..f];
    }
  }

  lemma ZeroIsZero(base: int)
    ensures Number("0", base) == 0
  {
    assert "0"[..0] == "";
  }

  /** The subject sequence is the longest numeral with its sign. */
  lemma SubjectIs(s: string, base: int)
    requires base == 0 || 2 <= base <= 36
    ensures var p, q, e := SkipSpaces(s, 0), AfterSign(s).0, NumeralEnd(s, base);
            if e == q then NoSubject(s, p, base) && forall f: nat :: !Longest(s, p, f, base)
            else Longest(s, p, e, base) && !NoSubject(s, p, base) && forall f: nat :: Longest(s, p, f, base) ==> f == e
  {
    hide AfterSign, NumeralEnd, IsNumeral;
    var p, q, e := SkipSpaces(s, 0), AfterSign(s).0, NumeralEnd(s, base);
    forall f: nat | p < f <= |s|
      ensures q <= f && (IsSubject(s[p..f], base) <==> IsNumeral(s[q..f], base))
      ensures f > e ==> !IsSubject(s[p..f], base)
    {
      Behind(s, f);
      if f > e {
        NothingLonger(s, base, f);
      }
    }
    SignEnds(s);
    if e > q {
      NumeralThere(s, base);
    } else {
      EmptyIsNone(base);
      assert s[q..q] == "";
    }
  }

  lemma SignEnds(s: string)
    ensures SkipSpaces(s, 0) <= AfterSign(s).0
  {
  }

  lemma EmptyIsNone(base: int)
    ensures !IsNumeral("", base)
  {
  }

  /** What the code makes of the three cases. */
  lemma CodeResult(s: string, base: int)
    requires base == 0 || 2 <= base <= 36
    ensures var (q, neg) := AfterSign(s);
            var h := HeadOf(s, base);
            var n := Number(s[h.at..DigitsEnd(s, h.at, h.base)], h.base);
            if BareMark(s, q, base) then
              Parsed(s, base) == 0 && ParsedEnd(s, base) == if neg then q + 1 else q + 2
            else if NoDigits(s, q, base) then
              Parsed(s, base) == 0 && ParsedEnd(s, base) == if neg then q - 1 else q
            else
              n >= 0 && Parsed(s, base) == Signed(neg, n % TWO64) && ParsedEnd(s, base) == NumeralEnd(s, base) > q
  {
    hide DigitOf, AfterSign, Number, IsSpace;
    var q, h := AfterSign(s).0, HeadOf(s, base);
    ZeroIsDigit(10);
    ZeroIsDigit(16);
    ZeroIsDigit(if base == 0 then 8 else base);
    EmptyNumber(h.base);
    NumberIsNat(s[h.at..DigitsEnd(s, h.at, h.base)], h.base);
    assert s[h.at..h.at] == "";
  }

  lemma StartsAtZero(s: string)
    ensures var (q, neg) := AfterSign(s);
            (if neg then q - 1 else q) == 0 <==> !IsSpace(At(s, 0)) && At(s, 0) != '+'
  {
  }

  /** The parser does what the standard asks for exactly under the condition. */
  lemma C11Iff(s: string, base: int)
    requires base == 0 || 2 <= base <= 36
    ensures MeetsC11(s, base, Parsed(s, base), ParsedEnd(s, base)) <==> AsInC11(s, base)
  {
    hide Parsed, ParsedEnd, AfterSign, HeadOf, IsSubject, Magnitude, Longest, NoSubject, Number, DigitOf, HexMark;
    hide Unsigned, BareMark, NoDigits, Converted, Signed;
    var p, q, e := SkipSpaces(s, 0), AfterSign(s).0, NumeralEnd(s, base);
    SubjectIs(s, base);
    CodeResult(s, base);
    StartsAtZero(s);
    SignEnds(s);
    if e > q {
      ConvertedIs(s, base);
    }
  }

  lemma ConvertedIs(s: string, base: int)
    requires (base == 0 || 2 <= base <= 36) && NumeralEnd(s, base) > AfterSign(s).0
    ensures var (q, neg) := AfterSign(s);
            var h := HeadOf(s, base);
            var n := Number(s[h.at..DigitsEnd(s, h.at, h.base)], h.base);
            SkipSpaces(s, 0) <= q && Converted(s[SkipSpaces(s, 0)..NumeralEnd(s, base)], base) ==
              if BareMark(s, q, base) then 0 else if n >= TWO64 then TWO64 - 1 else Signed(neg, n)
  {
    hide AfterSign, HeadOf, Magnitude, Number, DigitOf, HexMark, Unsigned, BareMark, NoDigits, Parsed, ParsedEnd;
    CodeResult(s, base);
    SignEnds(s);
    Behind(s, NumeralEnd(s, base));
    NumeralThere(s, base);
  }

  lemma {:induction false} NumberIsNat(t: string, base: int)
    requires base >= 0 && forall i :: 0 <= i < |t| ==> DigitOf(t[i], base)
    ensures Number(t, base) >= 0
  {
    if t != "" {
      NumberIsNat(t[..|t| - 1], base);
      ProductIsNat(Number(t[..|t| - 1], base), base);
    }
  }
}
