/** The contents of a file: the run list of its data attribute and the clusters it names. */
module NtfsData {
  import opened Doubles
  import opened NtfsRecord

  const DATA: nat := 0x80
  const LBA_LIMIT: nat := 0x1000_0000

  datatype Option<T> = None | Some(value: T)

  /** A JavaScript number: a double that is an integer, or NaN (`None`). */
  type Number = Option<int>

  function Plus(a: Number, b: Number): Number {
    if a.Some? && b.Some? then Some(Round(a.value + b.value)) else None
  }

  function Times(a: Number, b: int): Number { if a.Some? then Some(Round(a.value * b)) else None }

  // ---- signed numbers of n bytes ---------------------------------------------

  function Pow256(n: nat): (p: nat)
    ensures p >= 1
  {
    if n == 0 then 1 else 256 * Pow256(n - 1)
  }

  /** The number that `n` bytes from `o` on denote, lowest byte first. */
  function Unsigned(a: seq<Byte>, o: nat, n: nat): nat
    requires o + n <= |a|
    decreases n
  {
    if n == 0 then 0 else a[o] + 256 * Unsigned(a, o + 1, n - 1)
  }

  predicate Negative(a: seq<Byte>, o: nat, n: nat)
    requires o + n <= |a|
  {
    n > 0 && a[o + n - 1] >= 0x80
  }

  function Signed(a: seq<Byte>, o: nat, n: nat): int
    requires o + n <= |a|
  {
    Unsigned(a, o, n) - if Negative(a, o, n) then Pow256(n) else 0
  }

  /** What becomes of the unsigned number when each step is rounded. */
  function Accumulated(a: seq<Byte>, o: nat, n: nat): int
    requires o + n <= |a|
    decreases n
  {
    if n == 0 then 0 else Round(Round(Accumulated(a, o + 1, n - 1) * 256) + a[o])
  }

  function Decoded(a: seq<Byte>, o: nat, n: nat): int
    requires o + n <= |a|
  {
    if Negative(a, o, n) then Round(Accumulated(a, o, n) - Pow256(n)) else Accumulated(a, o, n)
  }

  /** The number that sint makes of the bytes; one outside the array makes it NaN. */
  function SignedAt(a: seq<Byte>, o: nat, n: nat): Number {
    if n == 0 then Some(0) else if o + n > |a| then None else Some(Decoded(a, o, n))
  }

  /** A byte of the array as a number. */
  function ByteAt(a: seq<Byte>, o: nat): Number { if o < |a| then Some(a[o]) else None }

  /** sint: highest byte first, then the sign. */
  method SInt(a: seq<Byte>, o: nat, n: nat) returns (v: Number)
    ensures v == SignedAt(a, o, n)
  {
    hide Round;
    v := Some(0);
    var i: int := n - 1;
    while i >= 0
      invariant -1 <= i <= n - 1 && (n == 0 ==> v == Some(0))
      invariant o + n <= |a| ==> v == Some(Accumulated(a, o + i + 1, n - 1 - i))
      invariant o + n > |a| && i < n - 1 ==> v == None
    {
      v := Plus(Times(v, 256), ByteAt(a, o + i));
      i := i - 1;
    }
    if n > 0 && At(a, o + n - 1) >= 0x80 {
      var power: int := Pow256(n);
      v := Plus(v, Some(-power));
    }
  }

  // ---- where the rounding shows ----------------------------------------------

  lemma EightMore(k: nat)
    ensures Pow2(k + 8) == 256 * Pow2(k)
  {
    assert Pow2(k + 2) == 4 * Pow2(k);
    assert Pow2(k + 4) == 16 * Pow2(k);
    assert Pow2(k + 6) == 64 * Pow2(k);
  }

  lemma {:induction false} Pow256IsPower(n: nat)
    ensures Pow256(n) == Pow2(8 * n)
    decreases n
  {
    if n > 0 {
      Pow256IsPower(n - 1);
      var k: nat := 8 * (n - 1);
      EightMore(k);
    }
  }

  lemma {:induction false} UnsignedBelow(a: seq<Byte>, o: nat, n: nat)
    requires o + n <= |a|
    ensures Unsigned(a, o, n) < Pow256(n)
    ensures n > 0 ==> (Negative(a, o, n) <==> Unsigned(a, o, n) >= 128 * Pow256(n - 1))
    decreases n
  {
    if n > 0 {
      UnsignedBelow(a, o + 1, n - 1);
    }
  }

  lemma TimesByteIsDouble(x: int)
    requires IsDouble(x)
    ensures IsDouble(x * 256) && Round(x * 256) == x * 256
  {
    var m, k: nat :| -TWO53 < m < TWO53 && x == Scaled(m, k);
    EightMore(k);
    assert x * 256 == m * Pow2(k + 8) == Scaled(m, k + 8);
    RoundIff(x * 256);
  }

  /** The upper part of a number of 53 significant bits has no more. */
  lemma UpperPart(x: nat, b: nat)
    requires b < 256 && IsDouble(256 * x + b)
    ensures IsDouble(x)
  {
    var m, k: nat :| -TWO53 < m < TWO53 && 256 * x + b == Scaled(m, k);
    if k >= 8 {
      var j: nat := k - 8;
      EightMore(j);
      var y := m * Pow2(j);
      assert m * Pow2(k) == 256 * y;
      assert x == Scaled(m, j);
    } else {
      PowersGrow(k, 7);
      assert Pow2(7) == 128;
      TimesKeepsOrder(m, TWO53, Pow2(k));
      SmallIsDouble(x);
    }
  }

  /** The accumulated value is a double, and the number itself if that is a double. */
  lemma {:induction false} AccumulatesExactly(a: seq<Byte>, o: nat, n: nat)
    requires o + n <= |a|
    ensures IsDouble(Accumulated(a, o, n))
    ensures IsDouble(Unsigned(a, o, n)) ==> Accumulated(a, o, n) == Unsigned(a, o, n)
    decreases n
  {
    hide IsDouble, Round;
    if n == 0 {
      SmallIsDouble(0);
    } else {
      var acc, u := Accumulated(a, o + 1, n - 1), Unsigned(a, o + 1, n - 1);
      AccumulatesExactly(a, o + 1, n - 1);
      TimesByteIsDouble(acc);
      RoundIff(acc * 256 + a[o]);
      if IsDouble(Unsigned(a, o, n)) {
        UpperPart(u, a[o]);
      }
    }
  }

  /** The accumulated value stays between the powers of two that the number is between. */
  lemma {:induction false} AccumulatedRange(a: seq<Byte>, o: nat, n: nat)
    requires o + n <= |a|
    ensures 0 <= Accumulated(a, o, n) <= Pow256(n)
    ensures Negative(a, o, n) ==> Accumulated(a, o, n) >= 128 * Pow256(n - 1)
    decreases n
  {
    hide IsDouble, Round, Pow256;
    SignAbove(a, o, n);
    if n > 0 {
      var acc := Accumulated(a, o + 1, n - 1);
      AccumulatedRange(a, o + 1, n - 1);
      AccumulatesExactly(a, o + 1, n - 1);
      TimesByteIsDouble(acc);
      if n <= 7 {
        SmallAccumulates(a, o + 1, n - 1);
      }
      AccumulateStep(acc, a[o], n);
    }
  }

  /** The sign bit is that of the upper part. */
  lemma SignAbove(a: seq<Byte>, o: nat, n: nat)
    requires o + n <= |a|
    ensures n == 0 ==> !Negative(a, o, n)
    ensures n == 1 ==> (Negative(a, o, n) <==> a[o] >= 128)
    ensures n > 1 ==> (Negative(a, o, n) <==> Negative(a, o + 1, n - 1))
    ensures n > 1 ==> Pow256(n - 1) == 256 * Pow256(n - 2)
    ensures Pow256(0) == 1
  {
  }

  lemma SixBytes(n: nat)
    requires n <= 6
    ensures Pow256(n) <= 0x1_0000_0000_0000 < TWO53
  {
    Pow256IsPower(n);
    Pow256IsPower(6);
    PowersGrow(8 * n, 48);
    assert Pow256(3) == 0x100_0000;
    assert Pow256(6) == 256 * (256 * (256 * Pow256(3)));
  }

  /** Up to 6 bytes there is nothing to round. */
  lemma SmallAccumulates(a: seq<Byte>, o: nat, n: nat)
    requires o + n <= |a| && n <= 6
    ensures IsDouble(Unsigned(a, o, n)) && Accumulated(a, o, n) == Unsigned(a, o, n) < Pow256(n)
  {
    hide IsDouble;
    UnsignedBelow(a, o, n);
    SixBytes(n);
    SmallIsDouble(Unsigned(a, o, n));
    AccumulatesExactly(a, o, n);
  }

  lemma AccumulateStep(acc: nat, b: nat, n: nat)
    requires n > 0 && b < 256 && acc <= Pow256(n - 1) && (n <= 7 ==> acc < Pow256(n - 1))
    ensures 0 <= Round(256 * acc + b) <= Pow256(n)
    ensures 256 * acc + b >= 128 * Pow256(n - 1) ==> Round(256 * acc + b) >= 128 * Pow256(n - 1)
  {
    hide Pow2, DoubleOf;
    var x := 256 * acc + b;
    Pow256IsPower(n);
    HalfPower(n);
    if acc == Pow256(n - 1) {
      RoundsDown(8 * n, b);
    } else {
      RoundKeepsPowers(x, 8 * n);
    }
    RoundKeepsPowers(x, 8 * n - 1);
  }

  lemma HalfPower(n: nat)
    requires n > 0
    ensures 128 * Pow256(n - 1) == Pow2(8 * n - 1)
  {
    Pow256IsPower(n);
  }

  /** Taking the power of 256 from an accumulated value of that many bytes is exact. */
  lemma DifferenceIsDouble(v: nat, n: nat)
    requires n > 0 && IsDouble(v) && 128 * Pow256(n - 1) <= v <= Pow256(n)
    ensures IsDouble(v - Pow256(n))
  {
    hide Pow2;
    assert Pow256(n) <= 2 * v;
    hide Pow256;
    if n <= 6 {
      SixBytes(n);
      SmallIsDouble(v - Pow256(n));
    } else {
      Pow256IsPower(n);
      var i: nat := 8 * n - 53;
      FiftyThreeMore(i);
      var m, k: nat :| -TWO53 < m < TWO53 && v == Scaled(m, k);
      if k < i {
        PowersGrow(k, i - 1);
        PowersGrow(i - 1, i);
        TimesKeepsOrder(m, TWO53 - 1, Pow2(k));
        Expand(TWO53 - 1, Pow2(k));
        PowerAndHalf(i);
      }
      assert k >= i;
      MultipleDifference(v, m, k, i);
    }
  }

  lemma PowerAndHalf(i: nat)
    requires i > 0
    ensures Pow2(i) == 2 * Pow2(i - 1)
  {
  }

  lemma MultipleDifference(v: nat, m: int, k: nat, i: nat)
    requires k >= i && v == Scaled(m, k) && v <= TWO53 * Pow2(i) <= 2 * v
    ensures IsDouble(v - TWO53 * Pow2(i))
  {
    hide Pow2;
    var q := Rescaled(m, k, i);
    UnitsBetween(q, Pow2(i));
    assert v - TWO53 * Pow2(i) == Scaled(q - TWO53, i);
  }

  lemma Rescaled(m: int, k: nat, i: nat) returns (q: int)
    requires k >= i
    ensures Scaled(m, k) == q * Pow2(i)
  {
    SumOfPowers(k - i, i);
    hide Pow2;
    q := m * Pow2(k - i);
    Regroup(m, Pow2(k - i), Pow2(i));
  }

  lemma Regroup(m: int, f: int, u: int)
    ensures m * (f * u) == (m * f) * u
  {
  }

  lemma UnitsBetween(q: int, u: nat)
    requires u > 0 && q * u <= TWO53 * u <= 2 * (q * u)
    ensures 0 < q <= TWO53 && q * u - TWO53 * u == (q - TWO53) * u
  {
    FewerUnits(q, TWO53, u);
    Regroup(2, q, u);
    FewerUnits(TWO53, 2 * q, u);
    ProductDifference(q, TWO53, u);
  }

  lemma FewerUnits(p: int, q: int, u: int)
    requires p * u <= q * u && u > 0
    ensures p <= q
  {
    if p > q {
      TimesKeepsOrder(q + 1, p, u);
      Expand(q, u);
    }
  }

  lemma ProductDifference(p: int, q: int, u: int)
    ensures p * u - q * u == (p - q) * u
  {
  }

  /** sint gives the signed number exactly if the bytes, unsigned, have at most 53
      significant bits. */
  lemma SignedIff(a: seq<Byte>, o: nat, n: nat)
    requires o + n <= |a|
    ensures SignedAt(a, o, n) == Some(Signed(a, o, n)) <==> IsDouble(Unsigned(a, o, n))
    ensures n <= 6 ==> IsDouble(Unsigned(a, o, n))
  {
    hide IsDouble, Round, Accumulated, Pow256;
    if n == 0 {
      SmallIsDouble(0);
      return;
    }
    var acc := Accumulated(a, o, n);
    AccumulatesExactly(a, o, n);
    AccumulatedRange(a, o, n);
    if n <= 6 {
      SmallAccumulates(a, o, n);
    }
    if Negative(a, o, n) {
      DifferenceIsDouble(acc, n);
      RoundIff(acc - Pow256(n));
    }
  }

  ghost predicate AllOnes(a: seq<Byte>, o: nat, n: nat) {
    o + n <= |a| && forall j :: o <= j < o + n ==> a[j] == 0xFF
  }

  lemma {:induction false} OnesAccumulate(a: seq<Byte>, o: nat, n: nat)
    requires AllOnes(a, o, n)
    ensures Unsigned(a, o, n) == Pow256(n) - 1
    ensures n >= 7 ==> Accumulated(a, o, n) == Pow256(n)
    decreases n
  {
    hide IsDouble, Round;
    if n > 0 {
      OnesAccumulate(a, o + 1, n - 1);
      AccumulatesExactly(a, o + 1, n - 1);
      var acc := Accumulated(a, o + 1, n - 1);
      TimesByteIsDouble(acc);
      if n == 7 {
        SmallAccumulates(a, o + 1, 6);
        SevenOnes();
      } else if n > 7 {
        Pow256IsPower(n);
        RoundsDown(8 * n, 255);
        RoundIsDoubleOf(acc * 256 + 255);
      }
    }
  }

  lemma RoundIsDoubleOf(v: nat)
    ensures Round(v) == DoubleOf(v)
  {
  }

  lemma SevenOnes()
    ensures Pow256(7) == 0x100_0000_0000_0000
    ensures Round(Pow256(7) - 1) == Pow256(7)
  {
    assert Pow256(3) == 0x100_0000;
    assert Pow256(6) == 256 * (256 * (256 * Pow256(3)));
    assert UnitFrom(0xFF_FFFF_FFFF_FFFF, 1) == UnitFrom(0xFF_FFFF_FFFF_FFFF, 4) == 8;
  }

  /** The bytes of -1 are read as 0 from 7 bytes on. */
  lemma MinusOneIsLost(a: seq<Byte>, o: nat, n: nat)
    requires AllOnes(a, o, n) && n > 0
    ensures Signed(a, o, n) == -1
    ensures SignedAt(a, o, n) == Some(if n <= 6 then -1 else 0)
  {
    hide IsDouble, Round, Accumulated;
    OnesAccumulate(a, o, n);
    SignedIff(a, o, n);
    SmallIsDouble(0);
  }

  function LeBytes(u: nat, n: nat): (s: seq<Byte>)
    ensures |s| == n
  {
    if n == 0 then [] else [u % 256] + LeBytes(u / 256, n - 1)
  }

  predicate InRange(x: int, n: nat) {
    if n == 0 then x == 0 else -128 * Pow256(n - 1) <= x < 128 * Pow256(n - 1)
  }

  /** The unsigned number with the same bytes. */
  function Pattern(x: int, n: nat): (u: nat)
    requires InRange(x, n)
    ensures u < Pow256(n)
  {
    if x < 0 then x + Pow256(n) else x
  }

  /** Two's complement in `n` bytes. */
  function Twos(x: int, n: nat): (s: seq<Byte>)
    requires InRange(x, n)
    ensures |s| == n
  {
    LeBytes(Pattern(x, n), n)
  }

  lemma {:induction false} LeBytesDenote(a: seq<Byte>, o: nat, u: nat, n: nat)
    requires Holds(a, o, LeBytes(u, n)) && u < Pow256(n)
    ensures Unsigned(a, o, n) == u
    decreases n
  {
    if n > 0 {
      var rest := LeBytes(u / 256, n - 1);
      HeldTwo(a, o, [u % 256], rest);
      assert a[o] == [u % 256][0];
      LeBytesDenote(a, o + 1, u / 256, n - 1);
    }
  }

  /** Decoding inverts two's complement, exactly if the bytes have at most 53 significant
      bits; up to 6 bytes they always have. */
  lemma SignedOfTwos(a: seq<Byte>, o: nat, x: int, n: nat)
    requires InRange(x, n) && Holds(a, o, Twos(x, n))
    ensures Signed(a, o, n) == x
    ensures SignedAt(a, o, n) == Some(x) <==> IsDouble(Pattern(x, n))
    ensures n <= 6 ==> IsDouble(Pattern(x, n))
  {
    hide Holds, IsDouble;
    HeldIsSlice(a, o, Twos(x, n));
    LeBytesDenote(a, o, Pattern(x, n), n);
    UnsignedBelow(a, o, n);
    SignedIff(a, o, n);
  }

  /** What becomes of a number that is written in `n` bytes and read back. */
  function ReadAs(x: int, n: nat): int
    requires InRange(x, n)
  {
    Decoded(Twos(x, n), 0, n)
  }

  lemma {:induction false} SameAccumulated(a: seq<Byte>, o: nat, b: seq<Byte>, p: nat, n: nat)
    requires o + n <= |a| && p + n <= |b| && a[o..o + n] == b[p..p + n]
    ensures Accumulated(a, o, n) == Accumulated(b, p, n)
    ensures n > 0 ==> a[o + n - 1] == b[p + n - 1]
    decreases n
  {
    hide Round;
    if n > 0 {
      var c := a[o..o + n];
      assert a[o] == c[0] == b[p] && a[o + n - 1] == c[n - 1] == b[p + n - 1];
      assert a[o + 1..o + n] == c[1..] == b[p + 1..p + n];
      SameAccumulated(a, o + 1, b, p + 1, n - 1);
    }
  }

  lemma HeldIsSlice(a: seq<Byte>, o: nat, b: seq<Byte>)
    requires Holds(a, o, b)
    ensures o + |b| <= |a| && a[o..o + |b|] == b
  {
  }

  lemma ReadsAs(a: seq<Byte>, o: nat, x: int, n: nat)
    requires InRange(x, n) && Holds(a, o, Twos(x, n))
    ensures o + n <= |a| && SignedAt(a, o, n) == Some(ReadAs(x, n))
    ensures ReadAs(x, n) == x <==> IsDouble(Pattern(x, n))
  {
    hide Round, Twos, IsDouble, InRange, Accumulated, Holds;
    var bytes := Twos(x, n);
    HeldIsSlice(a, o, bytes);
    assert bytes[0..n] == bytes;
    SignedOfTwos(a, o, x, n);
    SameAccumulated(a, o, bytes, 0, n);
    if n == 0 {
      NothingAccumulated(bytes, 0);
    }
  }

  lemma NothingAccumulated(a: seq<Byte>, o: nat)
    requires o <= |a|
    ensures Accumulated(a, o, 0) == 0
  {
  }

  // ---- run lists -------------------------------------------------------------

  datatype Run = Run(lcn: Number, count: Number)

  /** The runs from `o` on, up to a zero header or the end of the record; the start
      clusters are running sums. */
  function RunsFrom(rec: seq<Byte>, o: nat, lcn: Number): seq<Run>
    decreases |rec| - o
  {
    var h := At(rec, o);
    if h == 0 then []
    else
      var lenN, offN := h % 16, h / 16;
      var run := Run(Plus(lcn, SignedAt(rec, o + 1 + lenN, offN)), SignedAt(rec, o + 1, lenN));
      [run] + RunsFrom(rec, o + 1 + lenN + offN, run.lcn)
  }

  /** One turn of the loop in parseRuns. */
  lemma RunsUnfold(rec: seq<Byte>, o: nat, lcn: Number, runs: seq<Run>)
    ensures At(rec, o) == 0 ==> runs + RunsFrom(rec, o, lcn) == runs
    ensures var h := At(rec, o);
            var lenN, offN := h % 16, h / 16;
            var run := Run(Plus(lcn, SignedAt(rec, o + 1 + lenN, offN)), SignedAt(rec, o + 1, lenN));
            h != 0 ==>
              runs + RunsFrom(rec, o, lcn) == runs + [run] + RunsFrom(rec, o + 1 + lenN + offN, run.lcn)
  {
    hide SignedAt, Plus;
  }

  method ParseRuns(rec: seq<Byte>, runOff: nat) returns (runs: seq<Run>)
    ensures runs == RunsFrom(rec, runOff, Some(0))
  {
    hide SignedAt, RunsFrom, Plus;
    var o: nat := runOff;
    var lcn: Number := Some(0);
    runs := [];
    assert [] + RunsFrom(rec, runOff, Some(0)) == RunsFrom(rec, runOff, Some(0));
    while At(rec, o) != 0
      invariant RunsFrom(rec, runOff, Some(0)) == runs + RunsFrom(rec, o, lcn)
      decreases |rec| - o
    {
      RunsUnfold(rec, o, lcn, runs);
      var h: nat := At(rec, o);
      var lenN: nat, offN: nat := h % 16, h / 16;
      var count := SInt(rec, o + 1, lenN);
      var delta := SInt(rec, o + 1 + lenN, offN);
      lcn := Plus(lcn, delta);
      runs := runs + [Run(lcn, count)];
      o := o + 1 + lenN + offN;
    }
    RunsUnfold(rec, o, lcn, runs);
  }

  /** A run as it is written: a count, and the distance to the run before, each in a
      number of bytes of its own. */
  datatype RawRun = RawRun(count: int, countSize: nat, delta: int, deltaSize: nat)

  predicate Writable(w: RawRun) {
    && w.countSize < 16 && w.deltaSize < 16 && w.countSize + w.deltaSize > 0
    && InRange(w.count, w.countSize) && InRange(w.delta, w.deltaSize)
  }

  predicate AllWritable(raws: seq<RawRun>) { forall i :: 0 <= i < |raws| ==> Writable(raws[i]) }

  function Encode(w: RawRun): seq<Byte>
    requires Writable(w)
  {
    [w.countSize + 16 * w.deltaSize] + Twos(w.count, w.countSize) + Twos(w.delta, w.deltaSize)
  }

  function RunList(raws: seq<RawRun>): seq<Byte>
    requires AllWritable(raws)
  {
    if raws == [] then [0]
    else
      assert Writable(raws[0]);
      Encode(raws[0]) + RunList(raws[1..])
  }

  function Sum(raws: seq<RawRun>): int {
    if raws == [] then 0 else Sum(raws[..|raws| - 1]) + raws[|raws| - 1].delta
  }

  /** The runs that are meant: each starts at the sum of the distances up to it. */
  function Located(raws: seq<RawRun>): seq<Run> {
    seq(|raws|, i requires 0 <= i < |raws| => Run(Some(Sum(raws[..i + 1])), Some(raws[i].count)))
  }

  /** The rounding does not show in the run that follows the start cluster `lcn`: not in
      the bytes of its count, and not in the sum with its distance as it is read. */
  ghost predicate Kept(lcn: int, w: RawRun)
    requires Writable(w)
  {
    IsDouble(Pattern(w.count, w.countSize)) && Round(lcn + ReadAs(w.delta, w.deltaSize)) == lcn + w.delta
  }

  ghost predicate KeptFrom(raws: seq<RawRun>, i: nat)
    requires AllWritable(raws)
  {
    forall j :: i <= j < |raws| ==> KeptAt(raws, j)
  }

  ghost predicate KeptAt(raws: seq<RawRun>, j: nat)
    requires AllWritable(raws) && j < |raws|
  {
    Kept(Sum(raws[..j]), raws[j])
  }

  /** For a distance that is read as it was written, the sum must be a double. */
  lemma KeptIff(lcn: int, w: RawRun)
    requires Writable(w) && IsDouble(Pattern(w.delta, w.deltaSize))
    ensures Kept(lcn, w) <==> IsDouble(Pattern(w.count, w.countSize)) && IsDouble(lcn + w.delta)
  {
    hide IsDouble, Round, ReadAs;
    var bytes := Twos(w.delta, w.deltaSize);
    HeldSlice(bytes, 0, bytes);
    ReadsAs(bytes, 0, w.delta, w.deltaSize);
    RoundIff(lcn + w.delta);
  }

  /** In runs with fields of at most 6 bytes and sums up to 2^53 it never shows. */
  lemma SixByteFieldsAreKept(lcn: int, w: RawRun)
    requires Writable(w) && w.countSize <= 6 && w.deltaSize <= 6 && -TWO53 <= lcn + w.delta <= TWO53
    ensures Kept(lcn, w)
  {
    hide IsDouble, Kept;
    var c, d := Twos(w.count, w.countSize), Twos(w.delta, w.deltaSize);
    HeldSlice(c, 0, c);
    HeldSlice(d, 0, d);
    SignedOfTwos(c, 0, w.count, w.countSize);
    SignedOfTwos(d, 0, w.delta, w.deltaSize);
    SmallIsDouble(lcn + w.delta);
    KeptIff(lcn, w);
  }

  lemma {:induction false} OnesOfMinusOne(n: nat)
    ensures AllOnes(LeBytes(Pow256(n) - 1, n), 0, n)
    decreases n
  {
    if n > 0 {
      var p := Pow256(n - 1);
      assert (256 * p - 1) % 256 == 255 && (256 * p - 1) / 256 == p - 1;
      OnesOfMinusOne(n - 1);
    }
  }

  /** A distance of -1 in 7 or more bytes is lost. */
  lemma LostDistance(lcn: int, n: nat)
    requires 7 <= n < 16 && IsDouble(lcn)
    ensures var w := RawRun(1, 1, -1, n);
            Writable(w) && ReadAs(-1, n) == 0 && !Kept(lcn, w)
  {
    hide IsDouble, Round, Decoded, LeBytes, Twos, AllOnes, Pow256;
    MinusOneInRange(n);
    OnesOfMinusOne(n);
    assert Twos(-1, n) == LeBytes(Pow256(n) - 1, n) by {
      TwosIs(-1, n);
    }
    MinusOneIsLost(Twos(-1, n), 0, n);
    RoundIff(lcn);
  }

  lemma MinusOneInRange(n: nat)
    requires n > 0
    ensures InRange(-1, n) && InRange(1, 1)
  {
  }

  lemma TwosIs(x: int, n: nat)
    requires InRange(x, n)
    ensures Twos(x, n) == LeBytes(Pattern(x, n), n)
  {
  }

  /** Parsing a written run list gives the runs that are meant exactly if every one is
      kept. */
  lemma {:induction false} ParsesRunList(rec: seq<Byte>, o: nat, raws: seq<RawRun>, i: nat)
    requires AllWritable(raws) && i <= |raws| && Holds(rec, o, RunList(raws[i..]))
    ensures RunsFrom(rec, o, Some(Sum(raws[..i]))) == Located(raws)[i..] <==> KeptFrom(raws, i)
    decreases |raws| - i
  {
    hide Holds, RunsFrom, Located, Sum, Encode, Kept, Round, IsDouble;
    var rest := raws[i..];
    LocatedFrom(raws, i);
    if i == |raws| {
      EmptyRunList(rec, o, Some(Sum(raws[..i])));
    } else {
      var w := raws[i];
      assert rest[0] == w && rest[1..] == raws[i + 1..] && Writable(w);
      HeldTwo(rec, o, Encode(w), RunList(rest[1..]));
      hide Writable, RunList, AllWritable;
      RunFields(rec, o, w);
      ParsesRunList(rec, o + |Encode(w)|, raws, i + 1);
      SumOfMore(raws, i);
      RunsStep(rec, o, Sum(raws[..i]), w);
      KeptMeans(rec, o, Sum(raws[..i]), w);
      assert KeptFrom(raws, i) <==> KeptAt(raws, i) && KeptFrom(raws, i + 1);
      var run := RunAt(rec, o, Some(Sum(raws[..i])), w.countSize, w.deltaSize);
      EqualRuns(run, Run(Some(Sum(raws[..i + 1])), Some(w.count)),
                RunsFrom(rec, o + |Encode(w)|, run.lcn), Located(raws)[i + 1..]);
    }
  }

  lemma EqualRuns(x: Run, y: Run, a: seq<Run>, b: seq<Run>)
    ensures [x] + a == [y] + b <==> x == y && a == b
  {
    assert ([x] + a)[0] == x && ([y] + b)[0] == y && ([x] + a)[1..] == a && ([y] + b)[1..] == b;
  }

  /** A kept run is the one that is meant, and no other. */
  lemma KeptMeans(rec: seq<Byte>, o: nat, lcn: int, w: RawRun)
    requires Writable(w) && Holds(rec, o, Encode(w))
    ensures Kept(lcn, w) <==>
            RunAt(rec, o, Some(lcn), w.countSize, w.deltaSize) == Run(Some(lcn + w.delta), Some(w.count))
  {
    hide IsDouble, Round, SignedAt, ReadAs, Holds, Encode;
    RunFields(rec, o, w);
  }

  lemma EmptyRunList(rec: seq<Byte>, o: nat, lcn: Number)
    requires Holds(rec, o, [0])
    ensures RunsFrom(rec, o, lcn) == []
  {
    assert rec[o] == [0][0];
  }

  lemma SumOfMore(raws: seq<RawRun>, i: nat)
    requires i < |raws|
    ensures Sum(raws[..i + 1]) == Sum(raws[..i]) + raws[i].delta
  {
    assert raws[..i + 1][..i] == raws[..i];
  }

  lemma LocatedFrom(raws: seq<RawRun>, i: nat)
    requires i <= |raws|
    ensures |Located(raws)| == |raws|
    ensures i == |raws| ==> Located(raws)[i..] == []
    ensures i < |raws| ==>
              Located(raws)[i..] == [Run(Some(Sum(raws[..i + 1])), Some(raws[i].count))] + Located(raws)[i + 1..]
  {
  }

  lemma RunFields(rec: seq<Byte>, o: nat, w: RawRun)
    requires Writable(w) && Holds(rec, o, Encode(w))
    ensures o + 1 + w.countSize + w.deltaSize == o + |Encode(w)| <= |rec|
    ensures At(rec, o) == w.countSize + 16 * w.deltaSize
    ensures SignedAt(rec, o + 1, w.countSize) == Some(ReadAs(w.count, w.countSize))
    ensures SignedAt(rec, o + 1 + w.countSize, w.deltaSize) == Some(ReadAs(w.delta, w.deltaSize))
    ensures ReadAs(w.count, w.countSize) == w.count <==> IsDouble(Pattern(w.count, w.countSize))
  {
    hide IsDouble, ReadAs, SignedAt;
    var h, c, d := [w.countSize + 16 * w.deltaSize], Twos(w.count, w.countSize), Twos(w.delta, w.deltaSize);
    HeldTwo(rec, o, h + c, d);
    HeldTwo(rec, o, h, c);
    assert rec[o] == h[0];
    hide Holds;
    ReadsAs(rec, o + 1, w.count, w.countSize);
    ReadsAs(rec, o + 1 + w.countSize, w.delta, w.deltaSize);
  }

  /** The run that starts at `o`, behind the start cluster `lcn`. */
  function RunAt(rec: seq<Byte>, o: nat, lcn: Number, lenN: nat, offN: nat): Run {
    Run(Plus(lcn, SignedAt(rec, o + 1 + lenN, offN)), SignedAt(rec, o + 1, lenN))
  }

  lemma RunsStep(rec: seq<Byte>, o: nat, lcn: int, w: RawRun)
    requires w.countSize < 16 && w.deltaSize < 16 && w.countSize + w.deltaSize > 0
    requires At(rec, o) == w.countSize + 16 * w.deltaSize
    ensures var run := RunAt(rec, o, Some(lcn), w.countSize, w.deltaSize);
            RunsFrom(rec, o, Some(lcn)) == [run] + RunsFrom(rec, o + 1 + w.countSize + w.deltaSize, run.lcn)
  {
    hide SignedAt, Plus;
    HeaderNibbles(w.countSize, w.deltaSize);
  }

  lemma HeaderNibbles(lo: nat, hi: nat)
    requires lo < 16
    ensures (lo + 16 * hi) % 16 == lo && (lo + 16 * hi) / 16 == hi
  {
  }

  // ---- clusters --------------------------------------------------------------

  /** The disk: its bytes, and the sectors whose reading ends in an error. The controller
      sees 28 bits of a sector number, and 0 for NaN. */
  datatype Disk = Disk(bytes: int -> Byte, fails: int -> bool)

  /** The engine makes no array of 2 GB or more, and none of negative length. */
  const ARRAY_LIMIT: nat := 0x7FFF_FFFF

  predicate IsLength(n: Number) { n.Some? ==> 0 <= n.value <= ARRAY_LIMIT }

  /** How often a loop below `n` turns. */
  function Turns(n: Number): nat { if n.Some? && n.value > 0 then n.value else 0 }

  function SectorOf(lba: Number, s: nat): int {
    var l := Plus(lba, Some(s));
    if l.Some? then l.value % LBA_LIMIT else 0
  }

  function SectorByte(disk: Disk, lba: Number, k: nat): Byte {
    disk.bytes(SectorOf(lba, k / SECTOR) * SECTOR + k % SECTOR)
  }

  function Sectors(disk: Disk, lba: Number, count: nat): (s: seq<Byte>)
    ensures |s| == count * SECTOR
  {
    seq(count * SECTOR, k requires 0 <= k => SectorByte(disk, lba, k))
  }

  /** No sector among them fails. */
  ghost predicate AllRead(disk: Disk, lba: Number, count: nat) {
    forall s: nat :: s < count ==> !disk.fails(SectorOf(lba, s))
  }

  /** The array for the sectors can be made, and no sector fails. */
  ghost predicate SectorsRead(disk: Disk, lba: Number, count: Number) {
    IsLength(Times(count, SECTOR)) && AllRead(disk, lba, Turns(count))
  }

  lemma LengthIsExact(count: Number)
    requires IsLength(Times(count, SECTOR))
    ensures Turns(Times(count, SECTOR)) == Turns(count) * SECTOR
  {
    if count.Some? {
      var x := count.value * SECTOR;
      if x > TWO53 {
        hide DoubleOf;
        FiftyThreeMore(0);
        RoundKeepsPowers(x, 53);
        assert false;
      } else if x >= -TWO53 {
        SmallIsDouble(x);
      }
    }
  }

  /** Reading sectors succeeds exactly if there can be an array for them, of less than 2 GB
      and no negative length, and none of them fails; a count that is not a number reads
      nothing. */
  lemma SectorsReadMeans(disk: Disk, lba: Number, count: Number)
    ensures SectorsRead(disk, lba, count) <==>
            count.None? || (0 <= count.value * 512 <= 0x7FFF_FFFF
                            && forall s: nat :: s < count.value ==> !disk.fails(SectorOf(lba, s)))
  {
    hide SectorOf, Round;
    if count.Some? {
      if -TWO53 <= count.value * 512 <= TWO53 {
        SmallIsDouble(count.value * 512);
      } else {
        LargeStaysLarge(count.value * 512);
      }
    }
  }

  lemma LargeStaysLarge(x: int)
    ensures x > TWO53 ==> Round(x) >= TWO53
    ensures x < -TWO53 ==> Round(x) < 0
  {
    hide DoubleOf;
    FiftyThreeMore(0);
    RoundKeepsPowers(if x < 0 then -x else x, 53);
  }

  /** A start that is not a number reads the first sector every time. */
  lemma NaNReadsTheFirstSector(disk: Disk, count: nat, k: nat)
    requires k < count * 512
    ensures Sectors(disk, None, count)[k] == disk.bytes(k % 512)
  {
  }

  method ReadSectors(disk: Disk, lba: Number, count: Number) returns (ok: bool, out: array<Byte>)
    ensures fresh(out) && (ok <==> SectorsRead(disk, lba, count))
    ensures ok ==> out[..] == Sectors(disk, lba, Turns(count))
  {
    hide SectorByte, SectorOf, Times;
    var length := Times(count, SECTOR);
    if !IsLength(length) {
      out := new Byte[0];
      return false, out;
    }
    LengthIsExact(count);
    out := new Byte[Turns(length)](_ => 0);
    var n := 0;
    for s := 0 to Turns(count)
      invariant n == s * SECTOR && forall k :: 0 <= k < n ==> out[k] == SectorByte(disk, lba, k)
      invariant AllRead(disk, lba, s)
    {
      if disk.fails(SectorOf(lba, s)) {
        return false, out;
      }
      for i := 0 to SECTOR
        invariant n == s * SECTOR + i && n <= out.Length
        invariant forall k :: 0 <= k < n ==> out[k] == SectorByte(disk, lba, k)
      {
        ByteOfSector(disk, lba, s, i);
        out[n] := disk.bytes(SectorOf(lba, s) * SECTOR + i);
        n := n + 1;
      }
    }
    ok := true;
  }

  lemma ByteOfSector(disk: Disk, lba: Number, s: nat, i: nat)
    requires i < SECTOR
    ensures SectorByte(disk, lba, s * SECTOR + i) == disk.bytes(SectorOf(lba, s) * SECTOR + i)
    ensures forall count: nat :: s < count ==> s * SECTOR + i < count * SECTOR
  {
    hide SectorOf;
    assert (s * SECTOR + i) / SECTOR == s && (s * SECTOR + i) % SECTOR == i;
  }

  function RunBytes(disk: Disk, perCluster: nat, run: Run): seq<Byte> {
    Sectors(disk, Times(run.lcn, perCluster), Turns(Times(run.count, perCluster)))
  }

  ghost predicate RunReads(disk: Disk, perCluster: nat, run: Run) {
    SectorsRead(disk, Times(run.lcn, perCluster), Times(run.count, perCluster))
  }

  /** The clusters of all runs, one after the other. */
  function Content(disk: Disk, perCluster: nat, runs: seq<Run>): seq<Byte> {
    if runs == [] then []
    else Content(disk, perCluster, runs[..|runs| - 1]) + RunBytes(disk, perCluster, runs[|runs| - 1])
  }

  /** The first `n` bytes, zeros where there are none. */
  function Cut(s: seq<Byte>, n: nat): (r: seq<Byte>)
    ensures |r| == n
  {
    seq(n, i requires 0 <= i => At(s, i))
  }

  /** Byte `j` of a run is the byte of the disk that lies `j` bytes behind the start of the
      run's first cluster, if the run lies within the sectors the controller sees. */
  lemma ByteOnDisk(disk: Disk, perCluster: nat, lcn: nat, count: nat, j: nat)
    requires (lcn + count) * perCluster <= 0x1000_0000 && j < count * perCluster * 512
    ensures var run := Run(Some(lcn), Some(count));
            && |RunBytes(disk, perCluster, run)| == count * perCluster * 512
            && RunBytes(disk, perCluster, run)[j] == disk.bytes(lcn * perCluster * 512 + j)
  {
    var first, sectors := lcn * perCluster, count * perCluster;
    assert first + sectors == (lcn + count) * perCluster;
    SmallIsDouble(first);
    SmallIsDouble(sectors);
    ByteOfRun(disk, first, sectors, j);
    hide Round;
  }

  lemma ByteOfRun(disk: Disk, first: nat, sectors: nat, j: nat)
    requires first + sectors <= 0x1000_0000 && j < sectors * 512
    ensures Sectors(disk, Some(first), sectors)[j] == disk.bytes(first * 512 + j)
  {
    hide Round;
    var s := j / 512;
    Quotient512(j, sectors);
    SmallIsDouble(first + s);
    assert SectorOf(Some(first), s) == (first + s) % 0x1000_0000 == first + s;
    assert (first + s) * 512 + j % 512 == first * 512 + j;
  }

  lemma Quotient512(j: nat, n: nat)
    requires j < n * 512
    ensures j / 512 < n && j == j / 512 * 512 + j % 512
  {
  }

  /** What the runs do not fill is 0, and what they hold beyond the length is left out. */
  lemma CutMeans(s: seq<Byte>, n: nat)
    ensures |s| >= n ==> Cut(s, n) == s[..n]
    ensures |s| < n ==> Cut(s, n)[..|s|] == s && forall k :: |s| <= k < n ==> Cut(s, n)[k] == 0
  {
  }

  /** And the runs stand one behind the other in the data that is read. */
  lemma ByteOfFile(disk: Disk, perCluster: nat, runs: seq<Run>, i: nat, lcn: nat, count: nat, j: nat, n: nat)
    requires i < |runs| && runs[i] == Run(Some(lcn), Some(count))
    requires (lcn + count) * perCluster <= 0x1000_0000 && j < count * perCluster * 512
    ensures var k := |Content(disk, perCluster, runs[..i])| + j;
            k < n ==> Cut(Content(disk, perCluster, runs), n)[k] == disk.bytes(lcn * perCluster * 512 + j)
  {
    hide RunBytes, Content;
    var before, upTo := Content(disk, perCluster, runs[..i]), Content(disk, perCluster, runs[..i + 1]);
    ContentOfMore(disk, perCluster, runs, i);
    ByteOnDisk(disk, perCluster, lcn, count, j);
    ContentGrows(disk, perCluster, runs, i + 1, |runs|);
    assert runs[..|runs|] == runs;
    assert upTo[|before| + j] == RunBytes(disk, perCluster, runs[i])[j];
    assert Content(disk, perCluster, runs)[..|upTo|][|before| + j] == upTo[|before| + j];
  }

  /** Reading raises an error if there is no array for the data, or at a run that cannot be
      read, unless the data is complete before it. */
  ghost predicate Readable(disk: Disk, perCluster: nat, runs: seq<Run>, n: nat) {
    n <= ARRAY_LIMIT &&
    forall i :: 0 <= i < |runs| && (i == 0 || |Content(disk, perCluster, runs[..i])| < n) ==>
      RunReads(disk, perCluster, runs[i])
  }

  lemma ContentOfMore(disk: Disk, perCluster: nat, runs: seq<Run>, i: nat)
    requires i < |runs|
    ensures Content(disk, perCluster, runs[..i + 1]) ==
            Content(disk, perCluster, runs[..i]) + RunBytes(disk, perCluster, runs[i])
  {
    assert runs[..i + 1][..i] == runs[..i];
    hide RunBytes;
  }

  lemma {:induction false} ContentGrows(disk: Disk, perCluster: nat, runs: seq<Run>, i: nat, j: nat)
    requires i <= j <= |runs|
    ensures var c, d := Content(disk, perCluster, runs[..i]), Content(disk, perCluster, runs[..j]);
            |c| <= |d| && d[..|c|] == c
    decreases j
  {
    hide Content, RunBytes;
    if i < j {
      ContentGrows(disk, perCluster, runs, i, j - 1);
      ContentOfMore(disk, perCluster, runs, j - 1);
    }
  }

  lemma CutOfMore(c: seq<Byte>, d: seq<Byte>, n: nat)
    requires |c| <= |d| && d[..|c|] == c && |c| >= n
    ensures Cut(d, n) == Cut(c, n)
  {
    forall i | 0 <= i < n ensures At(d, i) == At(c, i) {
      assert d[..|c|][i] == d[i];
    }
  }

  /** Copies the front of a chunk behind what is there already. */
  method Copy(out: array<Byte>, chunk: array<Byte>, done: nat, take: nat, ghost c: seq<Byte>)
    requires out != chunk && done + take <= out.Length && take <= chunk.Length && done == |c|
    requires take == chunk.Length || done + take == out.Length
    requires out[..] == Cut(c, out.Length)
    modifies out
    ensures out[..] == Cut(c + chunk[..], out.Length)
  {
    var k := 0;
    while k < take
      invariant 0 <= k <= take
      invariant forall i :: 0 <= i < out.Length ==>
                  out[i] == if i < done then c[i] else if i < done + k then chunk[i - done] else 0
    {
      out[done + k] := chunk[k];
      k := k + 1;
    }
  }

  /** The runs one after the other, until `realSize` bytes are there. */
  method ReadRuns(disk: Disk, perCluster: nat, runs: seq<Run>, realSize: nat) returns (ok: bool, out: array<Byte>)
    ensures fresh(out) && (ok <==> Readable(disk, perCluster, runs, realSize))
    ensures ok ==> out[..] == Cut(Content(disk, perCluster, runs), realSize)
  {
    hide Cut, Content, RunBytes, Sectors, SectorsRead;
    if realSize > ARRAY_LIMIT {
      out := new Byte[0];
      return false, out;
    }
    out := new Byte[realSize](_ => 0);
    var done, i := 0, 0;
    NothingRead(disk, perCluster, realSize);
    while i < |runs|
      invariant 0 <= i <= |runs| && fresh(out) && out.Length == realSize
      invariant done == |Content(disk, perCluster, runs[..i])| && (i == 0 || done < realSize)
      invariant out[..] == Cut(Content(disk, perCluster, runs[..i]), realSize)
      invariant forall j :: 0 <= j < i ==> RunReads(disk, perCluster, runs[j])
    {
      var good, chunk := ReadSectors(disk, Times(runs[i].lcn, perCluster), Times(runs[i].count, perCluster));
      if !good {
        return false, out;
      }
      ContentOfMore(disk, perCluster, runs, i);
      RunIsSectors(disk, perCluster, runs[i]);
      var take := if chunk.Length < out.Length - done then chunk.Length else out.Length - done;
      Copy(out, chunk, done, take, Content(disk, perCluster, runs[..i]));
      done := done + take;
      i := i + 1;
      if done >= out.Length {
        Complete(disk, perCluster, runs, i, realSize);
        return true, out;
      }
    }
    assert runs[..i] == runs;
    return true, out;
  }

  lemma NothingRead(disk: Disk, perCluster: nat, n: nat)
    ensures Content(disk, perCluster, []) == [] && Cut([], n) == seq(n, _ => 0)
  {
  }

  lemma RunIsSectors(disk: Disk, perCluster: nat, run: Run)
    ensures RunBytes(disk, perCluster, run) ==
            Sectors(disk, Times(run.lcn, perCluster), Turns(Times(run.count, perCluster)))
  {
  }

  /** With enough bytes there, further runs change nothing and are not looked at. */
  lemma Complete(disk: Disk, perCluster: nat, runs: seq<Run>, i: nat, n: nat)
    requires 0 < i <= |runs| && |Content(disk, perCluster, runs[..i])| >= n && n <= ARRAY_LIMIT
    requires forall j :: 0 <= j < i ==> RunReads(disk, perCluster, runs[j])
    ensures Cut(Content(disk, perCluster, runs), n) == Cut(Content(disk, perCluster, runs[..i]), n)
    ensures Readable(disk, perCluster, runs, n)
  {
    hide Content;
    assert runs[..|runs|] == runs;
    ContentGrows(disk, perCluster, runs, i, |runs|);
    CutOfMore(Content(disk, perCluster, runs[..i]), Content(disk, perCluster, runs), n);
    forall j | i <= j < |runs| ensures |Content(disk, perCluster, runs[..j])| >= n {
      ContentGrows(disk, perCluster, runs, i, j);
    }
  }

  // ---- the data of a file ----------------------------------------------------

  function FindAttr(seen: seq<Seen>, kind: nat): Option<Seen> {
    if seen == [] then None
    else if seen[0].kind == kind then Some(seen[0])
    else FindAttr(seen[1..], kind)
  }

  /** The bytes of the file, or an error raised while reading. */
  datatype Contents = Bytes(data: seq<Byte>) | Raised

  /** What the runs hold, if all that are needed can be read. */
  ghost function ContentsOfRuns(disk: Disk, perCluster: nat, runs: seq<Run>, realSize: nat): Contents {
    if Readable(disk, perCluster, runs, realSize) then Bytes(Cut(Content(disk, perCluster, runs), realSize)) else Raised
  }

  /** The first data attribute says what the file holds; without one it is empty. */
  ghost function FileContents(disk: Disk, perCluster: nat, rec: seq<Byte>): Contents {
    match FindAttr(Attrs(rec, U16(rec, 20)), DATA)
    case None => Bytes([])
    case Some(SeenResident(_, value)) => Bytes(value)
    case Some(SeenNonResident(_, runOff, realSize)) =>
      ContentsOfRuns(disk, perCluster, RunsFrom(rec, runOff, Some(0)), realSize)
  }

  /** readData of a record that was read. */
  method ReadData(disk: Disk, perCluster: nat, rec: seq<Byte>) returns (result: Contents)
    ensures result == FileContents(disk, perCluster, rec)
  {
    hide RunsFrom, Attrs, U16, Readable, Content, Cut;
    var seen := EachAttr(rec);
    match FindAttr(seen, DATA)
    case None => return Bytes([]);
    case Some(SeenResident(_, value)) => return Bytes(value);
    case Some(SeenNonResident(_, runOff, realSize)) =>
      var runs := ParseRuns(rec, runOff);
      var ok, out := ReadRuns(disk, perCluster, runs, realSize);
      return if ok then Bytes(out[..]) else Raised;
  }

  /** Where attribute `i` stands in a record. */
  function OffsetOf(attrs: seq<Attribute>, i: nat): nat
    requires i <= |attrs|
  {
    FIRST_ATTRIBUTE + |Blobs(attrs[..i])|
  }

  lemma {:induction false} FindsFirst(attrs: seq<Attribute>, i: nat, off: nat)
    requires i < |attrs| && attrs[i].kind == DATA
    requires forall j :: 0 <= j < i ==> attrs[j].kind != DATA
    ensures FindAttr(Expected(attrs, off), DATA) == Some(AsRead(attrs[i], off + |Blobs(attrs[..i])|))
    decreases i
  {
    hide Blob, RoundUp8, HeaderOf, BodyOf, DoubleOf;
    if i > 0 {
      var rest := attrs[1..];
      FindsFirst(rest, i - 1, off + |Blob(attrs[0])|);
      assert attrs[..i][1..] == rest[..i - 1];
      assert Expected(attrs, off)[1..] == Expected(rest, off + |Blob(attrs[0])|);
    }
  }

  lemma {:induction false} BlobIsHeld(rec: seq<Byte>, off: nat, attrs: seq<Attribute>, i: nat)
    requires i < |attrs| && Holds(rec, off, Blobs(attrs))
    ensures Holds(rec, off + |Blobs(attrs[..i])|, Blob(attrs[i]))
    decreases i
  {
    hide Blob, Holds, RoundUp8, HeaderOf, BodyOf;
    FirstBlob(rec, off, attrs);
    if i > 0 {
      BlobIsHeld(rec, off + |Blob(attrs[0])|, attrs[1..], i - 1);
      assert attrs[..i][1..] == attrs[1..][..i - 1];
    }
  }

  /** The whole way: a record whose data attribute names runs by their distances is
      written, guarded and read back; its first data attribute is found, and its run list
      parses to the runs that were meant exactly if all are kept. */
  lemma FileRoundTrip(recno: nat, flags: nat, attrs: seq<Attribute>, i: nat, raws: seq<RawRun>)
    requires FitsRecord(attrs) && AllPackable(attrs) && NoEndMark(attrs)
    requires i < |attrs| && forall j :: 0 <= j < i ==> attrs[j].kind != DATA
    requires AllWritable(raws) && attrs[i].NonResident? && attrs[i].kind == DATA && attrs[i].runs == RunList(raws)
    ensures var s := ReadBack(Guarded(Plain(recno, flags, attrs)), SECTOR);
            && s.Good?
            && FindAttr(Attrs(s.rec, U16(s.rec, 20)), DATA) ==
                 Some(SeenNonResident(DATA, OffsetOf(attrs, i) + 64, DoubleOf(attrs[i].realSize)))
            && (RunsFrom(s.rec, OffsetOf(attrs, i) + 64, Some(0)) == Located(raws) <==> KeptFrom(raws, 0))
  {
    hide ReadBack, Guarded, Plain, Attrs, Holds, U16, U32, Blob, Blobs, RunsFrom, Located, RunList, FitsRecord;
    hide Expected, Given, KeptFrom, AllWritable, AllPackable, ExactSizes, DoubleOf;
    RecordRoundTrip(recno, flags, attrs);
    var rec := ReadBack(Guarded(Plain(recno, flags, attrs)), SECTOR).rec;
    FindsFirst(attrs, i, FIRST_ATTRIBUTE);
    BlobIsHeld(rec, FIRST_ATTRIBUTE, attrs, i);
    BlobParts(rec, OffsetOf(attrs, i), attrs[i]);
    assert raws[0..] == raws && raws[..0] == [];
    ParsesRunList(rec, OffsetOf(attrs, i) + 64, raws, 0);
    assert Located(raws)[0..] == Located(raws);
  }

  /** So the file that is read is that of the runs that were meant. */
  lemma FileIsMeant(recno: nat, flags: nat, attrs: seq<Attribute>, i: nat, raws: seq<RawRun>,
                    disk: Disk, perCluster: nat)
    requires FitsRecord(attrs) && AllPackable(attrs) && NoEndMark(attrs)
    requires i < |attrs| && forall j :: 0 <= j < i ==> attrs[j].kind != DATA
    requires AllWritable(raws) && attrs[i].NonResident? && attrs[i].kind == DATA && attrs[i].runs == RunList(raws)
    requires KeptFrom(raws, 0)
    ensures var s := ReadBack(Guarded(Plain(recno, flags, attrs)), SECTOR);
            s.Good? && FileContents(disk, perCluster, s.rec) ==
                       ContentsOfRuns(disk, perCluster, Located(raws), attrs[i].realSize)
  {
    hide ReadBack, Guarded, Plain, Attrs, U16, RunsFrom, Located, RunList, FitsRecord, KeptFrom, AllWritable;
    hide FindAttr, AllPackable, DoubleOf, Content, Cut;
    FileRoundTrip(recno, flags, attrs, i, raws);
    SizeOrError(attrs[i].realSize);
  }

  lemma SizeOrError(n: nat)
    ensures DoubleOf(n) == n || (DoubleOf(n) > ARRAY_LIMIT && n > ARRAY_LIMIT)
  {
    FiftyThreeMore(0);
    if n < TWO53 {
      SmallIsExact(n);
    } else {
      RoundKeepsPowers(n, 53);
    }
  }

  /** A file whose data is in the record itself is that data. */
  lemma ResidentFile(recno: nat, flags: nat, attrs: seq<Attribute>, i: nat, disk: Disk, perCluster: nat)
    requires FitsRecord(attrs) && AllPackable(attrs) && NoEndMark(attrs)
    requires i < |attrs| && forall j :: 0 <= j < i ==> attrs[j].kind != DATA
    requires attrs[i].Resident? && attrs[i].kind == DATA
    ensures var s := ReadBack(Guarded(Plain(recno, flags, attrs)), SECTOR);
            s.Good? && FileContents(disk, perCluster, s.rec) == Bytes(attrs[i].value)
  {
    hide ReadBack, Guarded, Plain, Attrs, U16, Blobs, FitsRecord, Expected, Given, AllPackable, ExactSizes, FindAttr;
    RecordRoundTrip(recno, flags, attrs);
    FindsFirst(attrs, i, FIRST_ATTRIBUTE);
  }

  lemma {:induction false} NothingFound(attrs: seq<Attribute>, off: nat)
    requires forall j :: 0 <= j < |attrs| ==> attrs[j].kind != DATA
    ensures FindAttr(Expected(attrs, off), DATA) == None
    decreases |attrs|
  {
    hide Blob, DoubleOf;
    if attrs != [] {
      NothingFound(attrs[1..], off + |Blob(attrs[0])|);
      assert Expected(attrs, off)[1..] == Expected(attrs[1..], off + |Blob(attrs[0])|);
    }
  }

  /** Without a data attribute a file is empty. */
  lemma EmptyFile(recno: nat, flags: nat, attrs: seq<Attribute>, disk: Disk, perCluster: nat)
    requires FitsRecord(attrs) && AllPackable(attrs) && NoEndMark(attrs)
    requires forall j :: 0 <= j < |attrs| ==> attrs[j].kind != DATA
    ensures var s := ReadBack(Guarded(Plain(recno, flags, attrs)), SECTOR);
            s.Good? && FileContents(disk, perCluster, s.rec) == Bytes([])
  {
    hide ReadBack, Guarded, Plain, Attrs, U16, Blobs, FitsRecord, Expected, Given, AllPackable, ExactSizes, FindAttr;
    RecordRoundTrip(recno, flags, attrs);
    NothingFound(attrs, FIRST_ATTRIBUTE);
  }

  /** The run lies within the sectors the controller sees, and within an array. */
  predicate InRangeOfDisk(lcn: int, count: int, perCluster: nat) {
    0 <= lcn && 0 <= count && (lcn + count) * perCluster <= 0x1000_0000 && count * perCluster * 512 <= 0x7FFF_FFFF
  }

  ghost predicate AllInRange(raws: seq<RawRun>, perCluster: nat) {
    forall r :: 0 <= r < |raws| ==> InRangeOfDisk(Sum(raws[..r + 1]), raws[r].count, perCluster)
  }

  /** The bytes of the first `r` runs. */
  function BytesBefore(raws: seq<RawRun>, perCluster: nat, r: nat): int
    requires r <= |raws|
  {
    if r == 0 then 0 else BytesBefore(raws, perCluster, r - 1) + raws[r - 1].count * perCluster * 512
  }

  /** On a disk without failing sectors a file of such runs is read, and has exactly its
      size in bytes. */
  lemma FileIsRead(recno: nat, flags: nat, attrs: seq<Attribute>, i: nat, raws: seq<RawRun>,
                   disk: Disk, perCluster: nat)
    requires FitsRecord(attrs) && AllPackable(attrs) && NoEndMark(attrs)
    requires i < |attrs| && forall j :: 0 <= j < i ==> attrs[j].kind != DATA
    requires AllWritable(raws) && attrs[i].NonResident? && attrs[i].kind == DATA && attrs[i].runs == RunList(raws)
    requires KeptFrom(raws, 0) && AllInRange(raws, perCluster) && (forall x :: !disk.fails(x))
    requires attrs[i].realSize <= 0x7FFF_FFFF
    ensures var s := ReadBack(Guarded(Plain(recno, flags, attrs)), SECTOR);
            && s.Good? && FileContents(disk, perCluster, s.rec) ==
                          Bytes(Cut(Content(disk, perCluster, Located(raws)), attrs[i].realSize))
            && |FileContents(disk, perCluster, s.rec).data| == attrs[i].realSize
  {
    hide ReadBack, Guarded, Plain, RunList, FitsRecord, KeptFrom, AllWritable, AllPackable, Content, Cut, FileContents;
    hide Readable, AllInRange, Located;
    FileIsMeant(recno, flags, attrs, i, raws, disk, perCluster);
    MeantIsReadable(raws, disk, perCluster, attrs[i].realSize);
  }

  /** Each byte of a run within that size is the byte of the disk at its place behind the
      start of the run. */
  lemma FileBytes(raws: seq<RawRun>, disk: Disk, perCluster: nat, n: nat, r: nat, j: nat)
    requires AllInRange(raws, perCluster) && r < |raws| && j < raws[r].count * perCluster * 512
    ensures FromDisk(Cut(Content(disk, perCluster, Located(raws)), n), BytesBefore(raws, perCluster, r) + j,
                     disk, Sum(raws[..r + 1]) * perCluster * 512 + j)
  {
    hide Content, Cut, Sum;
    ContentLength(raws, disk, perCluster, r);
    assert InRangeOfDisk(Sum(raws[..r + 1]), raws[r].count, perCluster);
    assert Located(raws)[r] == Run(Some(Sum(raws[..r + 1])), Some(raws[r].count));
    ByteOfFile(disk, perCluster, Located(raws), r, Sum(raws[..r + 1]), raws[r].count, j, n);
  }

  /** Byte `k` of the data, if there is one, is byte `a` of the disk. */
  predicate FromDisk(data: seq<Byte>, k: int, disk: Disk, a: int) { 0 <= k < |data| ==> data[k] == disk.bytes(a) }

  lemma MeantIsReadable(raws: seq<RawRun>, disk: Disk, perCluster: nat, n: nat)
    requires AllInRange(raws, perCluster) && (forall x :: !disk.fails(x)) && n <= 0x7FFF_FFFF
    ensures Readable(disk, perCluster, Located(raws), n)
  {
    forall r | 0 <= r < |raws| ensures RunReads(disk, perCluster, Located(raws)[r]) {
      assert InRangeOfDisk(Sum(raws[..r + 1]), raws[r].count, perCluster);
      InRangeReads(disk, perCluster, Sum(raws[..r + 1]), raws[r].count);
    }
    hide Content, RunReads;
  }

  lemma InRangeReads(disk: Disk, perCluster: nat, lcn: int, count: int)
    requires InRangeOfDisk(lcn, count, perCluster) && forall x :: !disk.fails(x)
    ensures RunReads(disk, perCluster, Run(Some(lcn), Some(count)))
  {
    hide SectorOf, Round;
    ProductIsNat(lcn, perCluster);
    ProductIsNat(count, perCluster);
    assert lcn * perCluster + count * perCluster == (lcn + count) * perCluster;
    SmallIsDouble(lcn * perCluster);
    SmallIsDouble(count * perCluster);
    SmallIsDouble(count * perCluster * 512);
  }

  lemma {:induction false} ContentLength(raws: seq<RawRun>, disk: Disk, perCluster: nat, r: nat)
    requires r <= |raws| && AllInRange(raws, perCluster)
    ensures |Content(disk, perCluster, Located(raws)[..r])| == BytesBefore(raws, perCluster, r)
    decreases r
  {
    hide RunBytes, Sum;
    if r > 0 {
      ContentLength(raws, disk, perCluster, r - 1);
      var run := Located(raws)[r - 1];
      assert InRangeOfDisk(Sum(raws[..r - 1 + 1]), raws[r - 1].count, perCluster);
      ContentOfMore(disk, perCluster, Located(raws), r - 1);
      RunLength(disk, perCluster, Sum(raws[..r]), raws[r - 1].count);
    }
  }

  lemma RunLength(disk: Disk, perCluster: nat, lcn: int, count: int)
    requires InRangeOfDisk(lcn, count, perCluster)
    ensures |RunBytes(disk, perCluster, Run(Some(lcn), Some(count)))| == count * perCluster * 512
  {
    hide Round;
    ProductIsNat(lcn, perCluster);
    ProductIsNat(count, perCluster);
    assert lcn * perCluster + count * perCluster == (lcn + count) * perCluster;
    SmallIsDouble(count * perCluster);
  }
}
