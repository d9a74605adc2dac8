/** File records of an NTFS volume: the writer of the image builder and the reader of the
    driver, with the update sequence that guards the ends of the sectors. */
module NtfsRecord {
  import opened Doubles

  const SECTOR: nat := 512
  const RECORD_SIZE: nat := 1024
  const FIRST_ATTRIBUTE: nat := 56
  const USA: nat := 48
  const END_MARK: nat := 0xFFFF_FFFF
  const TWO64: nat := 0x1_0000_0000_0000_0000

  type Byte = x: nat | x < 256

  // ---- little-endian fields --------------------------------------------------

  /** A byte of a typed array; what lies outside counts as 0. */
  function At(a: seq<Byte>, o: int): Byte { if 0 <= o < |a| then a[o] else 0 }

  function U16(a: seq<Byte>, o: int): (v: nat)
    ensures v < 0x1_0000
  {
    At(a, o) + 0x100 * At(a, o + 1)
  }

  function U32(a: seq<Byte>, o: int): (v: nat)
    ensures v <= END_MARK
  {
    U16(a, o) + 0x1_0000 * U16(a, o + 2)
  }

  function U64(a: seq<Byte>, o: int): (v: nat)
    ensures v < TWO64
  {
    U32(a, o) + 0x1_0000_0000 * U32(a, o + 4)
  }

  function Le16(v: nat): (s: seq<Byte>)
    ensures |s| == 2
  {
    [v % 0x100, v / 0x100 % 0x100]
  }

  function Le32(v: nat): (s: seq<Byte>)
    ensures |s| == 4
  {
    Le16(v % 0x1_0000) + Le16(v / 0x1_0000)
  }

  function Le64(v: nat): (s: seq<Byte>)
    ensures |s| == 8
  {
    Le32(v % 0x1_0000_0000) + Le32(v / 0x1_0000_0000)
  }

  function Zeros(n: nat): (s: seq<Byte>)
    ensures |s| == n
  {
    seq(n, _ => 0)
  }

  /** The bytes `b` stand in `a` at `o`. */
  ghost predicate Holds(a: seq<Byte>, o: nat, b: seq<Byte>) {
    o + |b| <= |a| && forall j :: 0 <= j < |b| ==> a[o + j] == b[j]
  }

  lemma Read16(a: seq<Byte>, o: nat, v: nat)
    requires Holds(a, o, Le16(v)) && v < 0x1_0000
    ensures U16(a, o) == v
  {
    assert a[o] == Le16(v)[0] && a[o + 1] == Le16(v)[1];
  }

  lemma Read32(a: seq<Byte>, o: nat, v: nat)
    requires Holds(a, o, Le32(v)) && v <= END_MARK
    ensures U32(a, o) == v
  {
    hide U16, Le16;
    HeldTwo(a, o, Le16(v % 0x1_0000), Le16(v / 0x1_0000));
    Read16(a, o, v % 0x1_0000);
    Read16(a, o + 2, v / 0x1_0000);
  }

  lemma Read64(a: seq<Byte>, o: nat, v: nat)
    requires Holds(a, o, Le64(v)) && v < TWO64
    ensures U64(a, o) == v
  {
    hide U32, Le32;
    HeldTwo(a, o, Le32(v % 0x1_0000_0000), Le32(v / 0x1_0000_0000));
    Read32(a, o, v % 0x1_0000_0000);
    Read32(a, o + 4, v / 0x1_0000_0000);
  }

  lemma HeldTwo(a: seq<Byte>, o: nat, b: seq<Byte>, c: seq<Byte>)
    requires Holds(a, o, b + c)
    ensures Holds(a, o, b) && Holds(a, o + |b|, c)
  {
    forall j | 0 <= j < |b| ensures a[o + j] == b[j] {
      assert (b + c)[j] == b[j];
    }
    forall j | 0 <= j < |c| ensures a[o + |b| + j] == c[j] {
      assert (b + c)[|b| + j] == c[j];
    }
  }

  lemma HeldSlice(a: seq<Byte>, o: nat, b: seq<Byte>)
    requires o + |b| <= |a| && a[o..o + |b|] == b
    ensures Holds(a, o, b)
  {
    forall j | 0 <= j < |b| ensures a[o + j] == b[j] {
      assert a[o..o + |b|][j] == b[j];
    }
  }

  // ---- attributes ------------------------------------------------------------

  datatype Attribute =
    | Resident(kind: nat, value: seq<Byte>, id: nat)
    | NonResident(kind: nat, runs: seq<Byte>, realSize: nat, id: nat)

  /** The numbers fit their fields; the writer raises an error otherwise. */
  predicate Packable(t: Attribute) {
    && t.kind <= END_MARK && t.id < 0x1_0000
    && match t
       case Resident(_, value, _) => |value| + 31 <= END_MARK
       case NonResident(_, runs, realSize, _) => |runs| + 71 <= END_MARK && SECTOR <= realSize < TWO64
  }

  /** `(n + 7) & ~7`. */
  function RoundUp8(n: nat): (r: nat)
    ensures n <= r < n + 8 && r % 8 == 0
  {
    (n + 7) / 8 * 8
  }

  function HeaderOf(t: Attribute): (s: seq<Byte>)
    ensures |s| == if t.Resident? then 24 else 64
  {
    match t
    case Resident(kind, value, id) =>
      Le32(kind) + Le32(RoundUp8(24 + |value|)) + [0] + Zeros(5) + Le16(id) + Le32(|value|) + Le16(24) + Zeros(2)
    case NonResident(kind, runs, realSize, id) =>
      Le32(kind) + Le32(RoundUp8(64 + |runs|)) + [1] + Zeros(5) + Le16(id) +
      Zeros(8) + Le64(if realSize >= SECTOR then realSize / SECTOR - 1 else 0) + Le16(64) + Zeros(6) +
      Le64(realSize) + Le64(realSize) + Le64(realSize)
  }

  function BodyOf(t: Attribute): seq<Byte> { if t.Resident? then t.value else t.runs }

  /** The bytes of an attribute: header, contents, and zeros up to a multiple of 8. */
  function Blob(t: Attribute): (s: seq<Byte>)
    ensures |s| == RoundUp8(|HeaderOf(t)| + |BodyOf(t)|)
  {
    var n := |HeaderOf(t)| + |BodyOf(t)|;
    HeaderOf(t) + BodyOf(t) + Zeros(RoundUp8(n) - n)
  }

  function Blobs(attrs: seq<Attribute>): seq<Byte> {
    if attrs == [] then [] else Blob(attrs[0]) + Blobs(attrs[1..])
  }

  /** What the reader reports of an attribute; a size is a JavaScript number. */
  datatype Seen =
    | SeenResident(kind: nat, value: seq<Byte>)
    | SeenNonResident(kind: nat, runOff: nat, realSize: nat)

  /** `a.slice(from, to)`, which keeps to the array. */
  function Slice(a: seq<Byte>, from: nat, to: nat): seq<Byte> {
    var e := if to <= |a| then to else |a|;
    if from <= e then a[from..e] else []
  }

  function SeenAt(rec: seq<Byte>, off: nat): Seen {
    if At(rec, off + 8) != 0 then
      SeenNonResident(U32(rec, off), off + U16(rec, off + 32), DoubleOf(U64(rec, off + 48)))
    else
      var start := off + U16(rec, off + 20);
      SeenResident(U32(rec, off), Slice(rec, start, start + U32(rec, off + 16)))
  }

  /** The attributes from `off` on, up to the end mark or one of length 0. */
  function Attrs(rec: seq<Byte>, off: nat): seq<Seen>
    decreases |rec| - off
  {
    if U32(rec, off) == END_MARK then []
    else
      var len := U32(rec, off + 4);
      [SeenAt(rec, off)] + if len == 0 || off >= |rec| then [] else Attrs(rec, off + len)
  }

  /** An attribute as it was given, at `off`. */
  function AsGiven(t: Attribute, off: nat): Seen {
    match t
    case Resident(kind, value, _) => SeenResident(kind, value)
    case NonResident(kind, _, realSize, _) => SeenNonResident(kind, off + 64, realSize)
  }

  /** As it is reported: its size is read as a double. */
  function AsRead(t: Attribute, off: nat): Seen {
    match t
    case Resident(kind, value, _) => SeenResident(kind, value)
    case NonResident(kind, _, realSize, _) => SeenNonResident(kind, off + 64, DoubleOf(realSize))
  }

  function Given(attrs: seq<Attribute>, off: nat): seq<Seen> {
    if attrs == [] then [] else [AsGiven(attrs[0], off)] + Given(attrs[1..], off + |Blob(attrs[0])|)
  }

  function Expected(attrs: seq<Attribute>, off: nat): (seen: seq<Seen>)
    ensures |seen| == |attrs|
  {
    if attrs == [] then [] else [AsRead(attrs[0], off)] + Expected(attrs[1..], off + |Blob(attrs[0])|)
  }

  /** Sizes below 2^53, and those above with zeros enough at the end. */
  ghost predicate ExactSize(t: Attribute) { t.NonResident? ==> IsDouble(t.realSize) }

  ghost predicate ExactSizes(attrs: seq<Attribute>) { forall i :: 0 <= i < |attrs| ==> ExactSize(attrs[i]) }

  /** Reading loses nothing exactly if all sizes are doubles. */
  lemma {:induction false} ExpectedIsGiven(attrs: seq<Attribute>, off: nat)
    ensures Expected(attrs, off) == Given(attrs, off) <==> ExactSizes(attrs)
    decreases |attrs|
  {
    hide Blob, AsRead, AsGiven, ExactSize, ExactSizes;
    ExactSizesStep(attrs);
    if attrs != [] {
      var t, rest := attrs[0], attrs[1..];
      var next := off + |Blob(t)|;
      ExpectedIsGiven(rest, next);
      ReadIsGiven(t, off);
      UnequalParts(AsRead(t, off), AsGiven(t, off), Expected(rest, next), Given(rest, next));
    }
  }

  lemma ReadIsGiven(t: Attribute, off: nat)
    ensures AsRead(t, off) == AsGiven(t, off) <==> ExactSize(t)
  {
    hide DoubleOf, IsDouble;
    if t.NonResident? {
      ExactIff(t.realSize);
    }
  }

  lemma ExactSizesStep(attrs: seq<Attribute>)
    ensures attrs == [] ==> ExactSizes(attrs)
    ensures attrs != [] ==> (ExactSizes(attrs) <==> ExactSize(attrs[0]) && ExactSizes(attrs[1..]))
  {
    hide ExactSize;
    if attrs != [] {
      assert attrs == [attrs[0]] + attrs[1..];
    }
  }

  /** The first size that is not a double is reported one byte less. */
  lemma OddSizeIsRounded()
    ensures var t := NonResident(0x80, [0], TWO53 + 1, 0);
            Packable(t) && !ExactSize(t) && AsRead(t, 0) == SeenNonResident(0x80, 64, TWO53)
  {
    hide IsDouble;
    assert UnitFrom(TWO53 + 1, 1) == 2;
    ExactIff(TWO53 + 1);
  }

  lemma UnequalParts(x: Seen, y: Seen, a: seq<Seen>, b: seq<Seen>)
    ensures [x] + a == [y] + b <==> x == y && a == b
  {
    assert ([x] + a)[0] == x && ([y] + b)[0] == y && ([x] + a)[1..] == a && ([y] + b)[1..] == b;
  }

  /** The fields of the header of a resident attribute. */
  lemma ResidentHeader(t: Attribute)
    requires t.Resident? && Packable(t)
    ensures var h := HeaderOf(t);
            && U32(h, 0) == t.kind && U32(h, 4) == |Blob(t)| && At(h, 8) == 0
            && U32(h, 16) == |t.value| && U16(h, 20) == 24
  {
    hide Le16, Le32, U16, U32, At, Holds;
    var h := HeaderOf(t);
    assert h[0..4] == Le32(t.kind);
    HeldSlice(h, 0, Le32(t.kind));
    assert h[4..8] == Le32(RoundUp8(24 + |t.value|));
    HeldSlice(h, 4, Le32(|Blob(t)|));
    assert h[8] == 0;
    assert h[16..20] == Le32(|t.value|);
    HeldSlice(h, 16, Le32(|t.value|));
    assert h[20..22] == Le16(24);
    HeldSlice(h, 20, Le16(24));
    assert At(h, 8) == h[8] by {
      OneByte(h, 8);
    }
    hide HeaderOf;
    Read32(h, 0, t.kind);
    Read32(h, 4, |Blob(t)|);
    Read32(h, 16, |t.value|);
    Read16(h, 20, 24);
  }

  lemma NonResidentHeader(t: Attribute)
    requires t.NonResident? && Packable(t)
    ensures var h := HeaderOf(t);
            && U32(h, 0) == t.kind && U32(h, 4) == |Blob(t)| && At(h, 8) == 1
            && U16(h, 32) == 64 && U64(h, 48) == t.realSize
  {
    hide Le16, Le32, Le64, U16, U32, U64, At, Holds;
    var h := HeaderOf(t);
    assert h[0..4] == Le32(t.kind);
    HeldSlice(h, 0, Le32(t.kind));
    assert h[4..8] == Le32(RoundUp8(64 + |t.runs|));
    HeldSlice(h, 4, Le32(|Blob(t)|));
    assert h[8] == 1;
    assert h[32..34] == Le16(64);
    HeldSlice(h, 32, Le16(64));
    assert h[48..56] == Le64(t.realSize);
    HeldSlice(h, 48, Le64(t.realSize));
    assert At(h, 8) == h[8] by {
      OneByte(h, 8);
    }
    hide HeaderOf;
    Read32(h, 0, t.kind);
    Read32(h, 4, |Blob(t)|);
    Read16(h, 32, 64);
    Read64(h, 48, t.realSize);
  }

  /** Fields of bytes that stand in a record are fields of the record. */
  lemma SameFields(rec: seq<Byte>, off: nat, h: seq<Byte>, o: nat)
    requires Holds(rec, off, h)
    ensures o < |h| ==> At(rec, off + o) == At(h, o)
    ensures o + 2 <= |h| ==> U16(rec, off + o) == U16(h, o)
    ensures o + 4 <= |h| ==> U32(rec, off + o) == U32(h, o)
    ensures o + 8 <= |h| ==> U64(rec, off + o) == U64(h, o)
  {
    forall j | 0 <= j < |h| ensures At(rec, off + j) == At(h, j) {
      assert rec[off + j] == h[j];
    }
  }

  /** Reading an attribute that stands in a record. */
  lemma SeenOfBlob(rec: seq<Byte>, off: nat, t: Attribute)
    requires Packable(t) && Holds(rec, off, Blob(t))
    ensures U32(rec, off) == t.kind && U32(rec, off + 4) == |Blob(t)|
    ensures SeenAt(rec, off) == AsRead(t, off)
    ensures Holds(rec, off + |HeaderOf(t)|, BodyOf(t))
  {
    hide U16, U32, U64, At, Slice, Packable, Blob, DoubleOf;
    var h := HeaderOf(t);
    BlobParts(rec, off, t);
    SameFields(rec, off, h, 0);
    SameFields(rec, off, h, 4);
    SameFields(rec, off, h, 8);
    if t.Resident? {
      ResidentHeader(t);
      SameFields(rec, off, h, 16);
      SameFields(rec, off, h, 20);
      hide HeaderOf;
      SliceOfHeld(rec, off + 24, t.value);
    } else {
      NonResidentHeader(t);
      SameFields(rec, off, h, 32);
      SameFields(rec, off, h, 48);
      hide HeaderOf;
    }
  }

  lemma BlobParts(rec: seq<Byte>, off: nat, t: Attribute)
    requires Holds(rec, off, Blob(t))
    ensures Holds(rec, off, HeaderOf(t)) && Holds(rec, off + |HeaderOf(t)|, BodyOf(t))
  {
    var h, b := HeaderOf(t), BodyOf(t);
    hide HeaderOf, BodyOf, Holds;
    var pad := Zeros(RoundUp8(|h| + |b|) - |h| - |b|);
    HeldTwo(rec, off, h + b, pad);
    HeldTwo(rec, off, h, b);
  }

  lemma OneByte(rec: seq<Byte>, o: nat)
    requires o < |rec|
    ensures At(rec, o) == rec[o]
  {
  }

  lemma SliceOfHeld(rec: seq<Byte>, o: nat, b: seq<Byte>)
    requires Holds(rec, o, b)
    ensures Slice(rec, o, o + |b|) == b
  {
  }

  lemma FirstBlob(rec: seq<Byte>, off: nat, attrs: seq<Attribute>)
    requires attrs != [] && Holds(rec, off, Blobs(attrs))
    ensures Holds(rec, off, Blob(attrs[0])) && Holds(rec, off + |Blob(attrs[0])|, Blobs(attrs[1..]))
  {
    hide Blob, Holds, RoundUp8, HeaderOf, BodyOf;
    HeldTwo(rec, off, Blob(attrs[0]), Blobs(attrs[1..]));
  }

  predicate AllPackable(attrs: seq<Attribute>) { forall i :: 0 <= i < |attrs| ==> Packable(attrs[i]) }

  predicate NoEndMark(attrs: seq<Attribute>) { forall i :: 0 <= i < |attrs| ==> attrs[i].kind != END_MARK }

  /** The attributes of a record are read back, in order, if none has the type that marks
      the end; else some are missing. */
  lemma {:induction false} AttrsOfBlobs(rec: seq<Byte>, off: nat, attrs: seq<Attribute>)
    requires AllPackable(attrs) && Holds(rec, off, Blobs(attrs)) && U32(rec, off + |Blobs(attrs)|) == END_MARK
    ensures NoEndMark(attrs) ==> Attrs(rec, off) == Expected(attrs, off)
    ensures !NoEndMark(attrs) ==> |Attrs(rec, off)| < |attrs|
    decreases |attrs|
  {
    hide U32, SeenAt, Blob, Packable, Holds, RoundUp8, HeaderOf, BodyOf, AsRead;
    if attrs != [] {
      var t := attrs[0];
      assert Packable(t);
      FirstBlob(rec, off, attrs);
      SeenOfBlob(rec, off, t);
      if t.kind != END_MARK {
        AttrsOfBlobs(rec, off + |Blob(t)|, attrs[1..]);
        AttrsStep(rec, off, attrs);
      }
    }
  }

  /** So they are read back as they were given exactly if also all sizes are doubles. */
  lemma AttrsAreGiven(rec: seq<Byte>, off: nat, attrs: seq<Attribute>)
    requires AllPackable(attrs) && Holds(rec, off, Blobs(attrs)) && U32(rec, off + |Blobs(attrs)|) == END_MARK
    ensures Attrs(rec, off) == Given(attrs, off) <==> NoEndMark(attrs) && ExactSizes(attrs)
  {
    hide Attrs, Expected, Given, NoEndMark, ExactSizes, Holds, Blobs, U32, Packable;
    AttrsOfBlobs(rec, off, attrs);
    ExpectedIsGiven(attrs, off);
    GivenIsAll(attrs, off);
  }

  lemma {:induction false} GivenIsAll(attrs: seq<Attribute>, off: nat)
    ensures |Given(attrs, off)| == |attrs|
    decreases |attrs|
  {
    hide Blob;
    if attrs != [] {
      GivenIsAll(attrs[1..], off + |Blob(attrs[0])|);
    }
  }

  lemma AttrsStep(rec: seq<Byte>, off: nat, attrs: seq<Attribute>)
    requires attrs != [] && Holds(rec, off, Blob(attrs[0])) && attrs[0].kind != END_MARK
    requires U32(rec, off) == attrs[0].kind && U32(rec, off + 4) == |Blob(attrs[0])|
    requires SeenAt(rec, off) == AsRead(attrs[0], off)
    ensures Attrs(rec, off) == [SeenAt(rec, off)] + Attrs(rec, off + |Blob(attrs[0])|)
    ensures Expected(attrs, off) == [SeenAt(rec, off)] + Expected(attrs[1..], off + |Blob(attrs[0])|)
    ensures NoEndMark(attrs) <==> NoEndMark(attrs[1..])
  {
    hide U32, SeenAt, AsRead, Blob, NoEndMark;
    NoEndMarkStep(attrs);
    assert |Blob(attrs[0])| > 0 && off < |rec| by {
      BlobIsThere(rec, off, attrs[0]);
    }
  }

  lemma BlobIsThere(rec: seq<Byte>, off: nat, t: Attribute)
    requires Holds(rec, off, Blob(t))
    ensures |Blob(t)| > 0 && off < |rec|
  {
    hide HeaderOf, BodyOf;
  }

  lemma NoEndMarkStep(attrs: seq<Attribute>)
    requires attrs != []
    ensures NoEndMark(attrs) <==> attrs[0].kind != END_MARK && NoEndMark(attrs[1..])
  {
    assert attrs == [attrs[0]] + attrs[1..];
  }

  // ---- the record ------------------------------------------------------------

  const MAGIC: seq<Byte> := [0x46, 0x49, 0x4C, 0x45]

  function RecordHeader(recno: nat, flags: nat, used: nat): (s: seq<Byte>)
    ensures |s| == FIRST_ATTRIBUTE
  {
    MAGIC + Le16(USA) + Le16(3) + Zeros(8) + Le16(1) + Le16(1) + Le16(FIRST_ATTRIBUTE) + Le16(flags) +
    Le32(used) + Le32(RECORD_SIZE) + Zeros(12) + Le32(recno) + Zeros(8)
  }

  /** The fields of the record header, which no reader here looks at but the first three
      and the offset. */
  lemma RecordFields(recno: nat, flags: nat, used: nat)
    requires recno <= END_MARK && flags < 0x1_0000 && used <= END_MARK
    ensures var h := RecordHeader(recno, flags, used);
            && h[0..4] == [0x46, 0x49, 0x4C, 0x45] && U16(h, 4) == 48 && U16(h, 6) == 3
            && U16(h, 16) == 1 && U16(h, 18) == 1 && U16(h, 20) == 56 && U16(h, 22) == flags
            && U32(h, 24) == used && U32(h, 28) == 1024 && U32(h, 44) == recno
  {
    hide Le16, Le32, U16, U32, Holds;
    var h := RecordHeader(recno, flags, used);
    assert h[4..6] == Le16(48) && h[6..8] == Le16(3) && h[16..18] == Le16(1) && h[18..20] == Le16(1);
    assert h[20..22] == Le16(56) && h[22..24] == Le16(flags);
    assert h[24..28] == Le32(used) && h[28..32] == Le32(1024) && h[44..48] == Le32(recno);
    hide RecordHeader;
    Field16(h, 4, 48);
    Field16(h, 6, 3);
    Field16(h, 16, 1);
    Field16(h, 18, 1);
    Field16(h, 20, 56);
    Field16(h, 22, flags);
    Field32(h, 24, used);
    Field32(h, 28, 1024);
    Field32(h, 44, recno);
  }

  lemma Field16(h: seq<Byte>, o: nat, v: nat)
    requires o + 2 <= |h| && h[o..o + 2] == Le16(v) && v < 0x1_0000
    ensures U16(h, o) == v
  {
    HeldSlice(h, o, Le16(v));
    Read16(h, o, v);
  }

  lemma Field32(h: seq<Byte>, o: nat, v: nat)
    requires o + 4 <= |h| && h[o..o + 4] == Le32(v) && v <= END_MARK
    ensures U32(h, o) == v
  {
    HeldSlice(h, o, Le32(v));
    Read32(h, o, v);
  }

  lemma Field64(h: seq<Byte>, o: nat, v: nat)
    requires o + 8 <= |h| && h[o..o + 8] == Le64(v) && v < TWO64
    ensures U64(h, o) == v
  {
    HeldSlice(h, o, Le64(v));
    Read64(h, o, v);
  }

  /** The fields of an attribute header that the reader skips: identifier, first and last
      cluster, and the sizes besides the real one. */
  lemma SkippedFields(t: Attribute)
    requires Packable(t)
    ensures U16(HeaderOf(t), 14) == t.id
    ensures t.NonResident? ==>
              var h := HeaderOf(t);
              && U64(h, 16) == 0 && U64(h, 24) == t.realSize / 512 - 1
              && U64(h, 40) == t.realSize && U64(h, 56) == t.realSize
  {
    hide Le16, Le32, Le64, U16, U64;
    var h := HeaderOf(t);
    assert h[14..16] == Le16(t.id);
    Field16(h, 14, t.id);
    if t.NonResident? {
      assert h[16..24] == Zeros(8) && h[24..32] == Le64(t.realSize / 512 - 1);
      assert h[40..48] == Le64(t.realSize) && h[56..64] == Le64(t.realSize);
      EightZeros();
      hide HeaderOf;
      Field64(h, 16, 0);
      Field64(h, 24, t.realSize / 512 - 1);
      Field64(h, 40, t.realSize);
      Field64(h, 56, t.realSize);
    }
  }

  lemma EightZeros()
    ensures Zeros(8) == Le64(0)
  {
  }

  predicate FitsRecord(attrs: seq<Attribute>) { FIRST_ATTRIBUTE + |Blobs(attrs)| + 4 <= RECORD_SIZE }

  /** The record before the update sequence is applied. */
  function Plain(recno: nat, flags: nat, attrs: seq<Attribute>): (s: seq<Byte>)
    requires FitsRecord(attrs)
    ensures |s| == RECORD_SIZE
  {
    var end := FIRST_ATTRIBUTE + |Blobs(attrs)|;
    RecordHeader(recno, flags, end + 8) + Blobs(attrs) + Le32(END_MARK) + Zeros(RECORD_SIZE - end - 4)
  }

  /** The ends of both sectors moved to the update sequence array, the sequence number in
      their place. */
  function Guarded(r: seq<Byte>): (s: seq<Byte>)
    requires |r| == RECORD_SIZE
    ensures |s| == RECORD_SIZE
  {
    r[48 := 1][49 := 0][50 := r[510]][51 := r[511]][52 := r[1022]][53 := r[1023]]
     [510 := 1][511 := 0][1022 := 1][1023 := 0]
  }

  datatype ReadResult = NoMagic | BadUsn | Good(rec: seq<Byte>)

  /** A store to a typed array; outside it has no effect. */
  function SetAt(a: seq<Byte>, o: int, b: Byte): (r: seq<Byte>)
    ensures |r| == |a|
  {
    if 0 <= o < |a| then a[o := b] else a
  }

  /** The end of sector `i` gets its bytes back. */
  function Patched(r: seq<Byte>, usaOff: nat, i: nat, sectorSize: nat): (p: seq<Byte>)
    ensures |p| == |r|
  {
    var tail := i * sectorSize - 2;
    var r' := SetAt(r, tail, At(r, usaOff + i * 2));
    SetAt(r', tail + 1, At(r', usaOff + i * 2 + 1))
  }

  function RestoreFrom(r: seq<Byte>, usaOff: nat, usn: nat, i: nat, count: nat, sectorSize: nat): ReadResult
    decreases count - i
  {
    if i >= count then Good(r)
    else if U16(r, i * sectorSize - 2) != usn then BadUsn
    else RestoreFrom(Patched(r, usaOff, i, sectorSize), usaOff, usn, i + 1, count, sectorSize)
  }

  /** Reading a record: magic, then every sector's sequence number is checked and the
      bytes below it restored. */
  function ReadBack(r: seq<Byte>, sectorSize: nat): ReadResult {
    if !(At(r, 0) == 0x46 && At(r, 1) == 0x49 && At(r, 2) == 0x4C && At(r, 3) == 0x45) then NoMagic
    else RestoreFrom(r, U16(r, 4), U16(r, U16(r, 4)), 1, U16(r, 6), sectorSize)
  }

  /** A record as the image builder lays it out, whatever its contents. */
  predicate LaidOut(r: seq<Byte>) {
    |r| == RECORD_SIZE && r[..4] == MAGIC && U16(r, 4) == USA && U16(r, 6) == 3
  }

  lemma RestoreTwo(r: seq<Byte>, usn: nat)
    ensures RestoreFrom(r, USA, usn, 1, 3, SECTOR) ==
              if U16(r, 510) != usn then BadUsn
              else
                var p := Patched(r, USA, 1, SECTOR);
                if U16(p, 1022) != usn then BadUsn else Good(Patched(p, USA, 2, SECTOR))
  {
    hide U16, Patched;
  }

  /** Guarding and reading back restores every byte outside the update sequence array. */
  lemma GuardedReadsBack(r: seq<Byte>)
    requires LaidOut(r)
    ensures var s := ReadBack(Guarded(r), SECTOR);
            && s.Good? && |s.rec| == RECORD_SIZE
            && forall j :: 0 <= j < RECORD_SIZE && !(48 <= j < 54) ==> s.rec[j] == r[j]
  {
    var g := Guarded(r);
    assert g[0] == r[..4][0] && g[1] == r[..4][1] && g[2] == r[..4][2] && g[3] == r[..4][3];
    assert U16(g, 4) == USA && U16(g, 6) == 3 && U16(g, 48) == 1;
    RestoreTwo(g, 1);
  }

  /** A record is refused for its magic exactly if it does not begin with FILE. */
  lemma MagicIsRequired(r: seq<Byte>, sectorSize: nat)
    ensures ReadBack(r, sectorSize) == NoMagic <==> !(|r| >= 4 && r[..4] == [0x46, 0x49, 0x4C, 0x45])
  {
    hide U16, RestoreFrom;
    RestoreHasMagic(r, U16(r, 4), U16(r, U16(r, 4)), 1, U16(r, 6), sectorSize);
    if |r| >= 4 {
      assert r[..4] == [r[0], r[1], r[2], r[3]];
    }
  }

  lemma {:induction false} RestoreHasMagic(r: seq<Byte>, usaOff: nat, usn: nat, i: nat, count: nat, sectorSize: nat)
    ensures RestoreFrom(r, usaOff, usn, i, count, sectorSize) != NoMagic
    decreases count - i
  {
    hide U16, Patched;
    if i < count {
      RestoreHasMagic(Patched(r, usaOff, i, sectorSize), usaOff, usn, i + 1, count, sectorSize);
    }
  }

  /** A laid-out record is accepted exactly if both sectors end in the sequence number,
      so a record of which only one sector was written is found out. */
  lemma AcceptedIffGuarded(r: seq<Byte>)
    requires LaidOut(r)
    ensures ReadBack(r, SECTOR).Good? <==> U16(r, 510) == U16(r, 48) && U16(r, 1022) == U16(r, 48)
  {
    assert r[0] == r[..4][0] && r[1] == r[..4][1] && r[2] == r[..4][2] && r[3] == r[..4][3];
    RestoreTwo(r, U16(r, 48));
    assert U16(Patched(r, USA, 1, SECTOR), 1022) == U16(r, 1022);
  }

  lemma HeaderFields(recno: nat, flags: nat, used: nat)
    ensures var h := RecordHeader(recno, flags, used);
            h[..4] == MAGIC && U16(h, 4) == USA && U16(h, 6) == 3 && U16(h, 20) == FIRST_ATTRIBUTE
  {
    hide U16, Le32, Le16, Holds;
    var h := RecordHeader(recno, flags, used);
    assert h[4..6] == Le16(USA) && h[6..8] == Le16(3) && h[20..22] == Le16(FIRST_ATTRIBUTE);
    HeldSlice(h, 4, Le16(USA));
    HeldSlice(h, 6, Le16(3));
    HeldSlice(h, 20, Le16(FIRST_ATTRIBUTE));
    Read16(h, 4, USA);
    Read16(h, 6, 3);
    Read16(h, 20, FIRST_ATTRIBUTE);
  }

  /** The parts of a record, and of every one that agrees with it outside the array. */
  lemma PlainParts(recno: nat, flags: nat, attrs: seq<Attribute>, rec: seq<Byte>)
    requires FitsRecord(attrs) && |rec| == RECORD_SIZE
    requires forall j :: 0 <= j < RECORD_SIZE && !(48 <= j < 54) ==> rec[j] == Plain(recno, flags, attrs)[j]
    ensures LaidOut(Plain(recno, flags, attrs)) && U16(rec, 20) == FIRST_ATTRIBUTE
    ensures Holds(rec, FIRST_ATTRIBUTE, Blobs(attrs))
    ensures U32(rec, FIRST_ATTRIBUTE + |Blobs(attrs)|) == END_MARK
  {
    var end := FIRST_ATTRIBUTE + |Blobs(attrs)|;
    hide Blobs, Le32;
    PlainHeader(recno, flags, attrs, rec);
    var plain := Plain(recno, flags, attrs);
    hide Plain, U16, U32, Holds, RecordHeader, LaidOut;
    PlainBody(recno, flags, attrs);
    StaysHeld(plain, rec, FIRST_ATTRIBUTE, Blobs(attrs));
    StaysHeld(plain, rec, end, Le32(END_MARK));
    Read32(rec, end, END_MARK);
  }

  lemma PlainHeader(recno: nat, flags: nat, attrs: seq<Attribute>, rec: seq<Byte>)
    requires FitsRecord(attrs) && |rec| == RECORD_SIZE
    requires forall j :: 0 <= j < 48 ==> rec[j] == Plain(recno, flags, attrs)[j]
    ensures LaidOut(Plain(recno, flags, attrs)) && U16(rec, 20) == FIRST_ATTRIBUTE
  {
    var used := FIRST_ATTRIBUTE + |Blobs(attrs)| + 8;
    hide Blobs, RecordHeader, Le32;
    var h, plain := RecordHeader(recno, flags, used), Plain(recno, flags, attrs);
    HeaderFields(recno, flags, used);
    forall j | 0 <= j < 48 ensures plain[j] == h[j] {
    }
    assert plain[..4] == h[..4];
  }

  lemma PlainBody(recno: nat, flags: nat, attrs: seq<Attribute>)
    requires FitsRecord(attrs)
    ensures Holds(Plain(recno, flags, attrs), FIRST_ATTRIBUTE, Blobs(attrs))
    ensures Holds(Plain(recno, flags, attrs), FIRST_ATTRIBUTE + |Blobs(attrs)|, Le32(END_MARK))
  {
    hide RecordHeader, Blobs, Le32, Holds;
    var b, end := Blobs(attrs), FIRST_ATTRIBUTE + |Blobs(attrs)|;
    var plain := Plain(recno, flags, attrs);
    assert plain[FIRST_ATTRIBUTE..end] == b && plain[end..end + 4] == Le32(END_MARK);
    HeldSlice(plain, FIRST_ATTRIBUTE, b);
    HeldSlice(plain, end, Le32(END_MARK));
  }

  lemma StaysHeld(a: seq<Byte>, a': seq<Byte>, o: nat, b: seq<Byte>)
    requires Holds(a, o, b) && |a'| == |a| && forall j :: o <= j < |a| ==> a'[j] == a[j]
    ensures Holds(a', o, b)
  {
  }

  /** Every record of attributes that fit reads back: the sector ends are restored, even
      inside an attribute, and the attributes are reported exactly as they were given, if
      and only if none has the type that marks the end and all sizes are doubles. */
  lemma RecordRoundTrip(recno: nat, flags: nat, attrs: seq<Attribute>)
    requires FitsRecord(attrs) && AllPackable(attrs)
    ensures var s := ReadBack(Guarded(Plain(recno, flags, attrs)), SECTOR);
            && s.Good? && Holds(s.rec, FIRST_ATTRIBUTE, Blobs(attrs))
            && (NoEndMark(attrs) ==> Attrs(s.rec, U16(s.rec, 20)) == Expected(attrs, FIRST_ATTRIBUTE))
            && (Attrs(s.rec, U16(s.rec, 20)) == Given(attrs, FIRST_ATTRIBUTE) <==>
                NoEndMark(attrs) && ExactSizes(attrs))
  {
    var plain := Plain(recno, flags, attrs);
    hide Plain, Guarded, ReadBack, LaidOut, Attrs, Expected, Given, NoEndMark, ExactSizes, Holds, Blobs, U16, U32;
    PlainParts(recno, flags, attrs, plain);
    GuardedReadsBack(plain);
    var rec := ReadBack(Guarded(plain), SECTOR).rec;
    PlainParts(recno, flags, attrs, rec);
    AttrsOfBlobs(rec, FIRST_ATTRIBUTE, attrs);
    AttrsAreGiven(rec, FIRST_ATTRIBUTE, attrs);
  }

  // ---- the writer, in place --------------------------------------------------

  function Put(a: seq<Byte>, o: nat, b: seq<Byte>): (r: seq<Byte>)
    requires o + |b| <= |a|
    ensures |r| == |a|
  {
    a[..o] + b + a[o + |b|..]
  }

  lemma PutNothing(s: seq<Byte>, o: nat)
    requires o <= |s|
    ensures Put(s, o, []) == s
  {
  }

  lemma PutNext(s: seq<Byte>, o: nat, b: seq<Byte>, i: nat)
    requires o + |b| <= |s| && i < |b|
    ensures Put(s, o, b[..i])[o + i := b[i]] == Put(s, o, b[..i + 1])
  {
  }

  method Pack(a: array<Byte>, o: nat, b: seq<Byte>)
    requires o + |b| <= a.Length
    modifies a
    ensures a[..] == Put(old(a[..]), o, b)
  {
    hide Put;
    ghost var was := a[..];
    PutNothing(was, o);
    assert b[..0] == [];
    var i := 0;
    while i < |b|
      invariant 0 <= i <= |b|
      invariant a[..] == Put(was, o, b[..i])
    {
      PutNext(was, o, b, i);
      a[o + i] := b[i];
      i := i + 1;
    }
    assert b[..i] == b;
  }

  /** What is written so far, and zeros behind it. */
  function Written(w: seq<Byte>, n: nat): (r: seq<Byte>)
    requires |w| <= n
    ensures |r| == n
  {
    w + Zeros(n - |w|)
  }

  /** Writing further back leaves zeros between. */
  lemma PutBehind(w: seq<Byte>, n: nat, o: nat, b: seq<Byte>)
    requires |w| <= o && o + |b| <= n
    ensures Put(Written(w, n), o, b) == Written(w + Zeros(o - |w|) + b, n)
  {
  }

  method NewBytes(n: nat) returns (a: array<Byte>)
    ensures fresh(a) && a[..] == Written([], n)
  {
    a := new Byte[n](_ => 0);
  }

  /** Packs `b` at `o`, behind everything written before. */
  method PackBehind(a: array<Byte>, ghost w: seq<Byte>, o: nat, b: seq<Byte>)
    returns (ghost w': seq<Byte>)
    requires |w| <= o && o + |b| <= a.Length && a[..] == Written(w, a.Length)
    modifies a
    ensures w' == w + Zeros(o - |w|) + b && a[..] == Written(w', a.Length)
  {
    PutBehind(w, a.Length, o, b);
    Pack(a, o, b);
    w' := w + Zeros(o - |w|) + b;
  }

  method AttrResident(kind: nat, value: seq<Byte>, id: nat) returns (a: array<Byte>)
    requires Packable(Resident(kind, value, id))
    ensures fresh(a) && a[..] == Blob(Resident(kind, value, id))
  {
    hide Put, Written, Le16, Le32, Zeros, RoundUp8, HeaderOf;
    var total := RoundUp8(24 + |value|);
    a := NewBytes(total);
    ghost var w := PackBehind(a, [], 0, Le32(kind));
    w := PackBehind(a, w, 4, Le32(total));
    w := PackBehind(a, w, 8, [0]);
    w := PackBehind(a, w, 14, Le16(id));
    NoZeros();
    assert w == Le32(kind) + Le32(total) + [0] + Zeros(5) + Le16(id);
    ghost var w0 := w;
    w := PackBehind(a, w, 16, Le32(|value|));
    w := PackBehind(a, w, 20, Le16(24));
    w := PackBehind(a, w, 24, value);
    ghost var t := Resident(kind, value, id);
    ResidentParts(t, w0);
    assert w == HeaderOf(t) + BodyOf(t);
    BlobIsWritten(t);
  }

  lemma ResidentParts(t: Attribute, w: seq<Byte>)
    requires t.Resident? && Packable(t)
    requires w == Le32(t.kind) + Le32(RoundUp8(24 + |t.value|)) + [0] + Zeros(5) + Le16(t.id)
    ensures HeaderOf(t) == w + Le32(|t.value|) + Le16(24) + Zeros(2)
  {
    hide Le16, Le32, Zeros, RoundUp8;
  }

  lemma NoZeros()
    ensures Zeros(0) == []
  {
  }

  lemma BlobIsWritten(t: Attribute)
    ensures Written(HeaderOf(t) + BodyOf(t), |Blob(t)|) == Blob(t)
  {
  }

  method AttrNonResident(kind: nat, runs: seq<Byte>, realSize: nat, id: nat) returns (a: array<Byte>)
    requires Packable(NonResident(kind, runs, realSize, id))
    ensures fresh(a) && a[..] == Blob(NonResident(kind, runs, realSize, id))
  {
    hide Put, Written, Le16, Le32, Le64, Zeros, RoundUp8, HeaderOf;
    var total := RoundUp8(64 + |runs|);
    a := NewBytes(total);
    ghost var w := PackBehind(a, [], 0, Le32(kind));
    w := PackBehind(a, w, 4, Le32(total));
    w := PackBehind(a, w, 8, [1]);
    w := PackBehind(a, w, 14, Le16(id));
    NoZeros();
    assert w == Le32(kind) + Le32(total) + [1] + Zeros(5) + Le16(id);
    ghost var w0 := w;
    w := PackSizes(a, w, realSize);
    w := PackBehind(a, w, 64, runs);
    ghost var t := NonResident(kind, runs, realSize, id);
    NonResidentParts(t, w0);
    assert w == HeaderOf(t) + BodyOf(t);
    BlobIsWritten(t);
  }

  function SizeFields(realSize: nat): (s: seq<Byte>)
    requires realSize >= SECTOR
    ensures |s| == 48
  {
    Zeros(8) + Le64(realSize / SECTOR - 1) + Le16(64) + Zeros(6) + Le64(realSize) + Le64(realSize) + Le64(realSize)
  }

  lemma NonResidentParts(t: Attribute, w: seq<Byte>)
    requires t.NonResident? && Packable(t)
    requires w == Le32(t.kind) + Le32(RoundUp8(64 + |t.runs|)) + [1] + Zeros(5) + Le16(t.id)
    ensures HeaderOf(t) == w + SizeFields(t.realSize)
  {
    hide Le16, Le32, Le64, Zeros, RoundUp8;
  }

  method PackSizes(a: array<Byte>, ghost w: seq<Byte>, realSize: nat) returns (ghost w': seq<Byte>)
    requires |w| == 16 && 64 <= a.Length && a[..] == Written(w, a.Length) && SECTOR <= realSize
    modifies a
    ensures w' == w + SizeFields(realSize) && a[..] == Written(w', a.Length)
  {
    hide Put, Written, Le16, Le64, Zeros;
    NoZeros();
    w' := PackBehind(a, w, 16, Zeros(8));
    w' := PackBehind(a, w', 24, Le64(realSize / SECTOR - 1));
    w' := PackBehind(a, w', 32, Le16(64));
    w' := PackBehind(a, w', 40, Le64(realSize));
    w' := PackBehind(a, w', 48, Le64(realSize));
    w' := PackBehind(a, w', 56, Le64(realSize));
    assert w' == w + SizeFields(realSize);
  }

  method PackFixed(rec: array<Byte>, recno: nat, flags: nat)
    requires rec[..] == Written([], RECORD_SIZE)
    modifies rec
    ensures rec[..] == Written(RecordHeader(recno, flags, 0), RECORD_SIZE)
  {
    hide Put, Written, Le16, Le32, Zeros;
    ghost var w := PackBehind(rec, [], 0, MAGIC);
    w := PackBehind(rec, w, 4, Le16(USA));
    w := PackBehind(rec, w, 6, Le16(3));
    w := PackBehind(rec, w, 16, Le16(1));
    w := PackBehind(rec, w, 18, Le16(1));
    w := PackBehind(rec, w, 20, Le16(FIRST_ATTRIBUTE));
    w := PackBehind(rec, w, 22, Le16(flags));
    w := PackBehind(rec, w, 28, Le32(RECORD_SIZE));
    w := PackBehind(rec, w, 44, Le32(recno));
    NoZeros();
    ZeroField();
    assert w + Zeros(8) == RecordHeader(recno, flags, 0);
    MoreZeros(w, RECORD_SIZE, 8);
  }

  lemma ZeroField()
    ensures Le32(0) == Zeros(4)
  {
  }

  lemma MoreZeros(w: seq<Byte>, n: nat, k: nat)
    requires |w| + k <= n
    ensures Written(w + Zeros(k), n) == Written(w, n)
  {
  }

  lemma {:induction false} BlobsOfMore(attrs: seq<Attribute>, i: nat)
    requires i < |attrs|
    ensures Blobs(attrs[..i + 1]) == Blobs(attrs[..i]) + Blob(attrs[i])
    ensures |Blobs(attrs[..i + 1])| <= |Blobs(attrs)|
    decreases i
  {
    hide Blob, RoundUp8, HeaderOf, BodyOf;
    var rest := attrs[1..];
    if i > 0 {
      BlobsOfMore(rest, i - 1);
      assert attrs[..i + 1][1..] == rest[..i] && attrs[..i][1..] == rest[..i - 1];
    } else {
      assert attrs[..1][1..] == [] && attrs[..0] == [];
    }
  }

  /** The size used goes into the header last. */
  lemma SizeUsed(recno: nat, flags: nat, attrs: seq<Attribute>, rec: seq<Byte>)
    requires FitsRecord(attrs)
    requires rec == Written(RecordHeader(recno, flags, 0) + Blobs(attrs) + Le32(END_MARK), RECORD_SIZE)
    ensures Put(rec, 24, Le32(FIRST_ATTRIBUTE + |Blobs(attrs)| + 8)) == Plain(recno, flags, attrs)
  {
    hide Le16, Le32, Blobs;
    var used := FIRST_ATTRIBUTE + |Blobs(attrs)| + 8;
    var h0, h := RecordHeader(recno, flags, 0), RecordHeader(recno, flags, used);
    assert h0[..24] == h[..24] && h[24..28] == Le32(used) && h0[28..] == h[28..];
    hide RecordHeader;
    assert rec[..24] == h0[..24] == h[..24];
    assert rec[28..56] == h0[28..] == h[28..];
    assert h == h[..24] + h[24..28] + h[28..];
    assert rec[28..] == h0[28..] + Blobs(attrs) + Le32(END_MARK) + Zeros(RECORD_SIZE - used + 4);
  }

  method Guard(rec: array<Byte>)
    requires rec.Length == RECORD_SIZE
    modifies rec
    ensures rec[..] == Guarded(old(rec[..]))
  {
    rec[48], rec[49] := 1, 0;
    rec[50], rec[51] := rec[510], rec[511];
    rec[52], rec[53] := rec[1022], rec[1023];
    rec[510], rec[511] := 1, 0;
    rec[1022], rec[1023] := 1, 0;
  }

  /** The record of the given attributes, guarded; it does not come about (the end mark
      would lie out of range) exactly if attributes and end mark do not fit. */
  method MakeRecord(recno: nat, flags: nat, attrs: seq<Attribute>) returns (ok: bool, rec: array<Byte>)
    requires recno <= END_MARK && flags < 0x1_0000 && AllPackable(attrs)
    ensures ok <==> FitsRecord(attrs)
    ensures ok ==> fresh(rec) && rec[..] == Guarded(Plain(recno, flags, attrs))
  {
    hide Put, Written, Le16, Le32, Zeros, Plain, Guarded, Blob, RecordHeader, RoundUp8, HeaderOf, BodyOf;
    rec := NewBytes(RECORD_SIZE);
    PackFixed(rec, recno, flags);
    NoZeros();
    ghost var h := RecordHeader(recno, flags, 0);
    ghost var w := h;
    var off, i := FIRST_ATTRIBUTE, 0;
    assert h + Blobs(attrs[..0]) == h;
    while i < |attrs|
      invariant 0 <= i <= |attrs| && fresh(rec) && rec.Length == RECORD_SIZE
      invariant off == FIRST_ATTRIBUTE + |Blobs(attrs[..i])|
      invariant off <= RECORD_SIZE ==> w == h + Blobs(attrs[..i]) && rec[..] == Written(w, RECORD_SIZE)
    {
      BlobsOfMore(attrs, i);
      var blob := Blob(attrs[i]);
      if off + |blob| <= RECORD_SIZE {
        w := PackBehind(rec, w, off, blob);
        assert w == h + Blobs(attrs[..i + 1]);
      }
      off := off + |blob|;
      i := i + 1;
    }
    assert attrs[..i] == attrs;
    if off + 4 > RECORD_SIZE {
      return false, rec;
    }
    w := PackBehind(rec, w, off, Le32(END_MARK));
    assert w == h + Blobs(attrs) + Le32(END_MARK);
    SizeUsed(recno, flags, attrs, rec[..]);
    Pack(rec, 24, Le32(off + 8));
    Guard(rec);
    return true, rec;
  }

  // ---- the reader, in place --------------------------------------------------

  /** What readRecord does to the bytes of a record it got from the disk. */
  method ReadRecord(rec: array<Byte>, sectorSize: nat) returns (result: ReadResult)
    modifies rec
    ensures result == ReadBack(old(rec[..]), sectorSize)
    ensures result.Good? ==> rec[..] == result.rec
  {
    hide U16, Patched;
    if !(At(rec[..], 0) == 0x46 && At(rec[..], 1) == 0x49 && At(rec[..], 2) == 0x4C && At(rec[..], 3) == 0x45) {
      return NoMagic;
    }
    var usaOff, count := U16(rec[..], 4), U16(rec[..], 6);
    var usn := U16(rec[..], usaOff);
    var i := 1;
    while i < count
      invariant 1 <= i
      invariant RestoreFrom(rec[..], usaOff, usn, i, count, sectorSize) == ReadBack(old(rec[..]), sectorSize)
      decreases count - i
    {
      if U16(rec[..], i * sectorSize - 2) != usn {
        return BadUsn;
      }
      Patch(rec, usaOff, i, sectorSize);
      i := i + 1;
    }
    return Good(rec[..]);
  }

  method Patch(rec: array<Byte>, usaOff: nat, i: nat, sectorSize: nat)
    modifies rec
    ensures rec[..] == Patched(old(rec[..]), usaOff, i, sectorSize)
  {
    var tail := i * sectorSize - 2;
    Store(rec, tail, At(rec[..], usaOff + i * 2));
    Store(rec, tail + 1, At(rec[..], usaOff + i * 2 + 1));
  }

  method Store(rec: array<Byte>, o: int, b: Byte)
    modifies rec
    ensures rec[..] == SetAt(old(rec[..]), o, b)
  {
    if 0 <= o < rec.Length {
      rec[o] := b;
    }
  }

  /** eachAttr, with the list of what its callback is given. */
  method EachAttr(rec: seq<Byte>) returns (seen: seq<Seen>)
    ensures seen == Attrs(rec, U16(rec, 20))
  {
    hide U32, SeenAt, U16, Attrs;
    var off := U16(rec, 20);
    seen := [];
    while true
      invariant Attrs(rec, U16(rec, 20)) == seen + Attrs(rec, off)
      decreases |rec| - off
    {
      AttrsUnfold(rec, off);
      PastTheEnd(rec, off);
      if U32(rec, off) == END_MARK {
        return;
      }
      Regroup(seen, SeenAt(rec, off), if U32(rec, off + 4) == 0 then [] else Attrs(rec, off + U32(rec, off + 4)));
      seen := seen + [SeenAt(rec, off)];
      var len := U32(rec, off + 4);
      if len == 0 {
        return;
      }
      off := off + len;
    }
  }

  lemma Regroup(a: seq<Seen>, x: Seen, b: seq<Seen>)
    ensures a + ([x] + b) == a + [x] + b
  {
  }

  lemma AttrsUnfold(rec: seq<Byte>, off: nat)
    ensures Attrs(rec, off) ==
              if U32(rec, off) == END_MARK then []
              else [SeenAt(rec, off)] + if U32(rec, off + 4) == 0 then [] else Attrs(rec, off + U32(rec, off + 4))
  {
    PastTheEnd(rec, off);
    hide U32, SeenAt;
  }

  lemma PastTheEnd(rec: seq<Byte>, off: nat)
    ensures off >= |rec| ==> U32(rec, off + 4) == 0
  {
  }
}
