/** A reader of the bytes scalars feed to a hasher: what was fed says which scalar it was. */
module ScalarStreams {
  import opened Floats
  import opened Options
  import opened Scalars
  import opened Utf8
  import opened Words

  /** Little-endian bytes as two's complement. */
  function ReadInt(bytes: Bytes): (v: int)
    ensures -Power(|bytes|) <= 2 * v < Power(|bytes|)
  {
    FromLeBound(bytes);
    var w := FromLe(bytes);
    if 2 * w >= Power(|bytes|) then w - Power(|bytes|) else w
  }

  function ReadNat(bytes: Bytes): (v: int)
    ensures 0 <= v < Power(|bytes|)
  {
    FromLeBound(bytes);
    FromLe(bytes)
  }

  lemma IntReads(v: int, n: nat)
    requires -Power(n) <= 2 * v < Power(n)
    ensures ReadInt(IntBytes(v, n)) == v
  {
    ToLeFromLe(if v < 0 then v + Power(n) else v, n);
  }

  lemma NatReads(v: nat, n: nat)
    requires v < Power(n)
    ensures ReadNat(IntBytes(v, n)) == v
  {
    ToLeFromLe(v, n);
  }

  /** The scalar a stream came from: eight bytes for the variant, then its values. */
  function ReadStream(stream: Bytes): Option<Scalar> {
    if |stream| < 8 then None else ReadVariant(ReadNat(stream[..8]), stream[8..])
  }

  function ReadVariant(d: nat, p: Bytes): Option<Scalar> {
    Powers();
    match |p|
    case 0 => if d == 0 then Some(Null) else if d == 19 then Some(Interval) else None
    case 1 => if d in {15, 16} then ReadText(d, p) else ReadByte(d, p)
    case 2 => if d in {15, 16} then ReadText(d, p) else Read2(d, p)
    case 4 => if d in {15, 16} then ReadText(d, p) else Read4(d, p)
    case 8 => if d in {15, 16} then ReadText(d, p) else Read8(d, p)
    case _ => if d in {15, 16} then ReadText(d, p) else ReadDecimal(d, p)
  }

  function ReadText(d: nat, p: Bytes): Option<Scalar>
    requires p != []
  {
    var text := p[..|p| - 1];
    if p[|p| - 1] != 0xFF || !ValidUtf8(text) then None
    else if d == 15 then Some(String32(text))
    else Some(String64(text))
  }

  function ReadByte(d: nat, p: Bytes): Option<Scalar>
    requires |p| == 1
  {
    Powers();
    if d == 1 then Some(Boolean(ReadNat(p) != 0))
    else if d == 2 then Some(Int8(ReadInt(p)))
    else if d == 6 then Some(UInt8(ReadNat(p)))
    else None
  }

  function Read2(d: nat, p: Bytes): Option<Scalar>
    requires |p| == 2
  {
    Powers();
    if d == 3 then Some(Int16(ReadInt(p)))
    else if d == 7 then Some(UInt16(ReadNat(p)))
    else None
  }

  function Read4(d: nat, p: Bytes): Option<Scalar>
    requires |p| == 4
  {
    Powers();
    if d == 4 then Some(Int32(ReadInt(p)))
    else if d == 8 then Some(UInt32(ReadNat(p)))
    else if d == 10 then Some(Float32(ReadNat(p)))
    else if d == 17 then Some(Datetime32(ReadInt(p)))
    else None
  }

  function Read8(d: nat, p: Bytes): Option<Scalar>
    requires |p| == 8
  {
    Powers();
    if d == 5 then Some(Int64(ReadInt(p)))
    else if d == 9 then Some(UInt64(ReadNat(p)))
    else if d == 11 then Some(Float64(ReadNat(p)))
    else if d == 18 then Some(Datetime64(ReadInt(p)))
    else None
  }

  /** The integer, then one byte each for precision and scale. */
  function ReadDecimal(d: nat, p: Bytes): Option<Scalar>
    requires |p| > 2
  {
    Powers();
    var n := |p| - 2;
    var v, precision, scale := ReadInt(p[..n]), ReadNat(p[n..n + 1]), ReadInt(p[n + 1..]);
    if d == 12 && n == 4 then Some(Decimal32(v, precision, scale))
    else if d == 13 && n == 8 then Some(Decimal64(v, precision, scale))
    else if d == 14 && n == 16 then Some(Decimal128(v, precision, scale))
    else None
  }

  /** What the hasher is told of a scalar: the scalar itself, but NaN and zero in one spelling each. */
  function Folded(s: Scalar): Scalar {
    match s
    case Float32(bits) => Float32(Canonical32(bits))
    case Float64(bits) => Float64(Canonical64(bits))
    case _ => s
  }

  lemma OneReads(v: int, n: nat)
    requires -Power(n) <= v < Power(n)
    ensures One(v, n).InRange() && One(v, n).Bytes() == IntBytes(v, n)
  {
    assert IntBytes(v, n) + [] == IntBytes(v, n);
  }

  lemma OneIntReads(v: int, n: nat)
    requires -Power(n) <= 2 * v < Power(n)
    ensures One(v, n).InRange() && |One(v, n).Bytes()| == n && ReadInt(One(v, n).Bytes()) == v
  {
    OneReads(v, n);
    IntReads(v, n);
  }

  lemma OneNatReads(v: nat, n: nat)
    requires v < Power(n)
    ensures One(v, n).InRange() && |One(v, n).Bytes()| == n && ReadNat(One(v, n).Bytes()) == v
  {
    OneReads(v, n);
    NatReads(v, n);
  }

  lemma ThreeReads(v: int, n: nat, precision: u8, scale: i8)
    requires -Power(n) <= 2 * v < Power(n)
    ensures Three(v, n, precision, scale).InRange()
    ensures var p := Three(v, n, precision, scale).Bytes();
            |p| == n + 2 && ReadInt(p[..n]) == v && ReadNat(p[n..n + 1]) == precision && ReadInt(p[n + 1..]) == scale
  {
    Powers();
    OneReads(scale, 1);
    var a, b, c := IntBytes(v, n), IntBytes(precision, 1), IntBytes(scale, 1);
    var p := a + (b + c);
    assert More(Int(precision, 1), One(scale, 1)).Bytes() == b + c;
    assert Three(v, n, precision, scale).Bytes() == p;
    assert p[..n] == a && p[n..n + 1] == b && p[n + 1..] == c;
    IntReads(v, n);
    NatReads(precision, 1);
    IntReads(scale, 1);
  }

  lemma TextReads(d: nat, text: Text)
    requires d == 15 || d == 16
    ensures More(Str(text), End).InRange()
    ensures ReadVariant(d, More(Str(text), End).Bytes()) == Some(if d == 15 then String32(text) else String64(text))
  {
    var p := text + [0xFF];
    assert p + [] == p && p[..|p| - 1] == text;
    assert More(Str(text), End).Bytes() == p;
  }

  lemma FloatsRead(s: Scalar)
    requires s.Float32? || s.Float64?
    ensures Payload(s).InRange()
    ensures ReadVariant(Discriminant(s), Payload(s).Bytes()) == Some(Folded(s))
  {
    Powers();
    match s
    case Float32(v) => OneNatReads(Canonical32(v), 4);
    case Float64(v) => OneNatReads(Canonical64(v), 8);
  }

  lemma BytesRead(s: Scalar)
    requires s.Boolean? || s.Int8? || s.UInt8?
    ensures Payload(s).InRange()
    ensures ReadVariant(Discriminant(s), Payload(s).Bytes()) == Some(Folded(s))
  {
    Powers();
    match s
    case Boolean(v) => OneNatReads(if v then 1 else 0, 1);
    case Int8(v) => OneIntReads(v, 1);
    case UInt8(v) => OneNatReads(v, 1);
  }

  lemma TwosRead(s: Scalar)
    requires s.Int16? || s.UInt16?
    ensures Payload(s).InRange()
    ensures ReadVariant(Discriminant(s), Payload(s).Bytes()) == Some(Folded(s))
  {
    Powers();
    match s
    case Int16(v) => OneIntReads(v, 2);
    case UInt16(v) => OneNatReads(v, 2);
  }

  lemma FoursRead(s: Scalar)
    requires s.Int32? || s.UInt32?
    ensures Payload(s).InRange()
    ensures ReadVariant(Discriminant(s), Payload(s).Bytes()) == Some(Folded(s))
  {
    Powers();
    match s
    case Int32(v) => OneIntReads(v, 4);
    case UInt32(v) => OneNatReads(v, 4);
  }

  lemma EightsRead(s: Scalar)
    requires s.Int64? || s.UInt64?
    ensures Payload(s).InRange()
    ensures ReadVariant(Discriminant(s), Payload(s).Bytes()) == Some(Folded(s))
  {
    Powers();
    match s
    case Int64(v) => OneIntReads(v, 8);
    case UInt64(v) => OneNatReads(v, 8);
  }

  lemma Datetime32Reads(v: i32)
    ensures One(v, 4).InRange() && ReadVariant(17, One(v, 4).Bytes()) == Some(Datetime32(v))
  {
    Powers();
    OneIntReads(v, 4);
  }

  lemma Datetime64Reads(v: i64)
    ensures One(v, 8).InRange() && ReadVariant(18, One(v, 8).Bytes()) == Some(Datetime64(v))
  {
    Powers();
    OneIntReads(v, 8);
  }

  lemma Decimal32Reads(v: i32, p: u8, t: i8)
    ensures Three(v, 4, p, t).InRange() && ReadVariant(12, Three(v, 4, p, t).Bytes()) == Some(Decimal32(v, p, t))
  {
    Powers();
    ThreeReads(v, 4, p, t);
  }

  lemma Decimal64Reads(v: i64, p: u8, t: i8)
    ensures Three(v, 8, p, t).InRange() && ReadVariant(13, Three(v, 8, p, t).Bytes()) == Some(Decimal64(v, p, t))
  {
    Powers();
    ThreeReads(v, 8, p, t);
  }

  lemma Decimal128Reads(v: i128, p: u8, t: i8)
    ensures Three(v, 16, p, t).InRange() && ReadVariant(14, Three(v, 16, p, t).Bytes()) == Some(Decimal128(v, p, t))
  {
    Powers();
    ThreeReads(v, 16, p, t);
  }

  lemma PayloadReads(s: Scalar)
    ensures Payload(s).InRange()
    ensures ReadVariant(Discriminant(s), Payload(s).Bytes()) == Some(Folded(s))
  {
    match s
    case Null =>
    case Interval =>
    case Boolean(_) => BytesRead(s);
    case Int8(_) => BytesRead(s);
    case UInt8(_) => BytesRead(s);
    case Int16(_) => TwosRead(s);
    case UInt16(_) => TwosRead(s);
    case Int32(_) => FoursRead(s);
    case UInt32(_) => FoursRead(s);
    case Datetime32(v) => Datetime32Reads(v);
    case Int64(_) => EightsRead(s);
    case UInt64(_) => EightsRead(s);
    case Datetime64(v) => Datetime64Reads(v);
    case Float32(_) => FloatsRead(s);
    case Float64(_) => FloatsRead(s);
    case Decimal32(v, p, t) => Decimal32Reads(v, p, t);
    case Decimal64(v, p, t) => Decimal64Reads(v, p, t);
    case Decimal128(v, p, t) => Decimal128Reads(v, p, t);
    case String32(text) => TextReads(15, text);
    case String64(text) => TextReads(16, text);
  }

  lemma FoldedMeansTheSame(s: Scalar)
    ensures Eq(Folded(s), s)
  {}

  /** Every NaN is fed as the positive quiet one, each zero as the positive one, and any other float as it is. */
  lemma FoldedSpelling(s: Scalar)
    ensures Folded(s) ==
            if s.Float32? && Value32(s.bits32) == NotANumber then Float32(0xFF * 0x80_0000 + 0x40_0000)
            else if s.Float32? && Value32(s.bits32) == Number(0) then Float32(0)
            else if s.Float64? && Value64(s.bits64) == NotANumber then
              Float64(0x7FF * 0x10_0000_0000_0000 + 0x8_0000_0000_0000)
            else if s.Float64? && Value64(s.bits64) == Number(0) then Float64(0)
            else s
  {
    if s.Float32? {
      Spelling32(s.bits32);
    } else if s.Float64? {
      Spelling64(s.bits64);
    }
  }

  lemma Spelling32(x: u32)
    ensures IsNan(x, SIGN32, INF32) <==> Value32(x) == NotANumber
    ensures IsZero(x, SIGN32) <==> Value32(x) == Number(0)
  {
    Fields32(x);
    MagnitudeZero(x / 0x80_0000 % 0x100, x % 0x80_0000, 0x80_0000);
  }

  lemma Spelling64(x: u64)
    ensures IsNan(x, SIGN64, INF64) <==> Value64(x) == NotANumber
    ensures IsZero(x, SIGN64) <==> Value64(x) == Number(0)
  {
    Fields64(x);
    MagnitudeZero(x / 0x10_0000_0000_0000 % 0x800, x % 0x10_0000_0000_0000, 0x10_0000_0000_0000);
  }

  /** A stream reads back as the scalar that was fed, or an equal one of the other spelling. */
  lemma StreamReadsBack(s: Scalar)
    ensures ReadStream(HashStream(s)) == Some(Folded(s)) && Eq(Folded(s), s)
  {
    Powers();
    PayloadReads(s);
    FoldedMeansTheSame(s);
    var head, tail := IntBytes(Discriminant(s), 8), Payload(s).Bytes();
    assert HashStream(s) == head + tail;
    assert (head + tail)[..8] == head && (head + tail)[8..] == tail;
    NatReads(Discriminant(s), 8);
  }
}
