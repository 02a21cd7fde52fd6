/** Scalar values, their equality, and the bytes they feed to a hasher. */
module Scalars {
  import opened Floats
  import opened Words
  import opened Utf8

  type i8 = x: int | -0x80 <= x < 0x80
  type i16 = x: int | -0x8000 <= x < 0x8000
  type i32 = x: int | -0x8000_0000 <= x < 0x8000_0000
  type i64 = x: int | -0x8000_0000_0000_0000 <= x < 0x8000_0000_0000_0000
  type i128 = x: int |
    -0x8000_0000_0000_0000_0000_0000_0000_0000 <= x < 0x8000_0000_0000_0000_0000_0000_0000_0000
  type u16 = x: nat | x < 0x1_0000
  type u32 = x: nat | x < 0x1_0000_0000

  type Text = b: Bytes | ValidUtf8(b)

  /** Floats are bit patterns, strings their bytes. */
  datatype Scalar =
    | Null
    | Boolean(flag: bool)
    | Int8(int8: i8)
    | Int16(int16: i16)
    | Int32(int32: i32)
    | Int64(int64: i64)
    | UInt8(uint8: u8)
    | UInt16(uint16: u16)
    | UInt32(uint32: u32)
    | UInt64(uint64: u64)
    | Float32(bits32: u32)
    | Float64(bits64: u64)
    | Decimal32(unscaled32: i32, precision: u8, scale: i8)
    | Decimal64(unscaled64: i64, precision: u8, scale: i8)
    | Decimal128(unscaled128: i128, precision: u8, scale: i8)
    | String32(text: Text)
    | String64(text: Text)
    | Datetime32(time32: i32)
    | Datetime64(time64: i64)
    | Interval

  // ----- floats, with the sign bit worth `sign` and infinity spelled `inf` (IEEE 754-2008, section 3.4) -----

  const SIGN32: nat := 0x8000_0000
  const INF32: nat := 0x7f80_0000
  const SIGN64: nat := 0x8000_0000_0000_0000
  const INF64: nat := 0x7ff0_0000_0000_0000

  predicate IsNan(bits: nat, sign: nat, inf: nat)
    requires sign > 0
  {
    bits % sign > inf
  }

  predicate IsZero(bits: nat, sign: nat)
    requires sign > 0
  {
    bits % sign == 0
  }

  /** `==` on floats: NaN equals nothing, and the two zeros are equal. */
  predicate FloatEq(a: nat, b: nat, sign: nat, inf: nat)
    requires sign > 0
  {
    !IsNan(a, sign, inf) && !IsNan(b, sign, inf) && (a == b || (IsZero(a, sign) && IsZero(b, sign)))
  }

  /** The bits of `v + 0.0` for a number `v`: minus zero becomes plus zero, everything else stays. */
  function PlusZero(bits: nat, sign: nat): nat
    requires sign > 0
  {
    if IsZero(bits, sign) then 0 else bits
  }

  // ----- equality -----

  predicate Eq(a: Scalar, b: Scalar) {
    match (a, b)
    case (Null, Null) => true
    case (Boolean(x), Boolean(y)) => x == y
    case (Int8(x), Int8(y)) => x == y
    case (Int16(x), Int16(y)) => x == y
    case (Int32(x), Int32(y)) => x == y
    case (Int64(x), Int64(y)) => x == y
    case (UInt8(x), UInt8(y)) => x == y
    case (UInt16(x), UInt16(y)) => x == y
    case (UInt32(x), UInt32(y)) => x == y
    case (UInt64(x), UInt64(y)) => x == y
    case (Float32(x), Float32(y)) =>
      if IsNan(x, SIGN32, INF32) then IsNan(y, SIGN32, INF32) else FloatEq(x, y, SIGN32, INF32)
    case (Float64(x), Float64(y)) =>
      if IsNan(x, SIGN64, INF64) then IsNan(y, SIGN64, INF64) else FloatEq(x, y, SIGN64, INF64)
    case (Decimal32(x, p, s), Decimal32(y, q, t)) => x == y && p == q && s == t
    case (Decimal64(x, p, s), Decimal64(y, q, t)) => x == y && p == q && s == t
    case (Decimal128(x, p, s), Decimal128(y, q, t)) => x == y && p == q && s == t
    case (String32(x), String32(y)) => x == y
    case (String64(x), String64(y)) => x == y
    case (Datetime32(x), Datetime32(y)) => x == y
    case (Datetime64(x), Datetime64(y)) => x == y
    case (Interval, Interval) => true
    case _ => false
  }

  // ----- what equality means -----

  /** The sign, exponent and fraction fields make up the bits; NaN and the zeros by their fields. */
  lemma Fields32(x: u32)
    ensures var e, m := x / 0x80_0000 % 0x100, x % 0x80_0000;
            (IsNan(x, SIGN32, INF32) <==> e == 0xFF && m != 0)
            && (IsZero(x, SIGN32) <==> e == 0 && m == 0)
            && x == (if x / SIGN32 % 2 == 1 then SIGN32 else 0) + 0x80_0000 * e + m
  {}

  lemma Fields64(x: u64)
    ensures var e, m := x / 0x10_0000_0000_0000 % 0x800, x % 0x10_0000_0000_0000;
            (IsNan(x, SIGN64, INF64) <==> e == 0x7FF && m != 0)
            && (IsZero(x, SIGN64) <==> e == 0 && m == 0)
            && x == (if x / SIGN64 % 2 == 1 then SIGN64 else 0) + 0x10_0000_0000_0000 * e + m
  {}

  lemma Equal32(a: u32, b: u32)
    ensures Eq(Float32(a), Float32(b)) <==> Value32(a) == Value32(b)
  {
    Fields32(a);
    Fields32(b);
    SameValue(
      a / SIGN32 % 2 == 1, a / 0x80_0000 % 0x100, a % 0x80_0000,
      b / SIGN32 % 2 == 1, b / 0x80_0000 % 0x100, b % 0x80_0000, 0x100, 0x80_0000);
  }

  lemma Equal64(a: u64, b: u64)
    ensures Eq(Float64(a), Float64(b)) <==> Value64(a) == Value64(b)
  {
    Fields64(a);
    Fields64(b);
    SameValue(
      a / SIGN64 % 2 == 1, a / 0x10_0000_0000_0000 % 0x800, a % 0x10_0000_0000_0000,
      b / SIGN64 % 2 == 1, b / 0x10_0000_0000_0000 % 0x800, b % 0x10_0000_0000_0000, 0x800, 0x10_0000_0000_0000);
  }

  /** What a scalar stands for: the value of a float of either width, or the scalar itself. */
  datatype Meaning = Single(value: FloatValue) | Double(value: FloatValue) | Itself(scalar: Scalar)

  function MeaningOf(s: Scalar): Meaning {
    if s.Float32? then Single(Value32(s.bits32))
    else if s.Float64? then Double(Value64(s.bits64))
    else Itself(s)
  }

  lemma OthersEqual(a: Scalar, b: Scalar)
    requires !(a.Float32? && b.Float32?) && !(a.Float64? && b.Float64?)
    ensures Eq(a, b) <==> a == b
  {}

  lemma OthersMean(a: Scalar, b: Scalar)
    requires !(a.Float32? && b.Float32?) && !(a.Float64? && b.Float64?)
    ensures MeaningOf(a) == MeaningOf(b) <==> a == b
  {}

  /** Scalars are equal exactly when they stand for the same: floats of one width with one value, NaN being one
      value and the two zeros another, and otherwise the same scalar. */
  lemma EqExactlyWhen(a: Scalar, b: Scalar)
    ensures Eq(a, b) <==> MeaningOf(a) == MeaningOf(b)
  {
    if a.Float32? && b.Float32? {
      Equal32(a.bits32, b.bits32);
    } else if a.Float64? && b.Float64? {
      Equal64(a.bits64, b.bits64);
    } else {
      OthersEqual(a, b);
      OthersMean(a, b);
    }
  }

  // ----- the bytes a scalar feeds to a hasher -----

  /** The position of the variant in the declaration. */
  function Discriminant(s: Scalar): (d: u8)
    ensures d < 20
  {
    match s
    case Null => 0
    case Boolean(_) => 1
    case Int8(_) => 2
    case Int16(_) => 3
    case Int32(_) => 4
    case Int64(_) => 5
    case UInt8(_) => 6
    case UInt16(_) => 7
    case UInt32(_) => 8
    case UInt64(_) => 9
    case Float32(_) => 10
    case Float64(_) => 11
    case Decimal32(_, _, _) => 12
    case Decimal64(_, _, _) => 13
    case Decimal128(_, _, _) => 14
    case String32(_) => 15
    case String64(_) => 16
    case Datetime32(_) => 17
    case Datetime64(_) => 18
    case Interval => 19
  }

  /** Two's complement, little-endian, in n bytes. */
  function IntBytes(v: int, n: nat): (bytes: Bytes)
    requires -Power(n) <= v < Power(n)
    ensures |bytes| == n
  {
    ToLe(if v < 0 then v + Power(n) else v, n)
  }

  /** The number of values n bytes can hold, as an integer. */
  function Power(n: nat): (p: int)
    ensures p > 0
  {
    Pow2(8 * n)
  }

  lemma Powers()
    ensures Power(1) == 0x100 && Power(2) == 0x1_0000 && Power(4) == 0x1_0000_0000
    ensures Power(8) == 0x1_0000_0000_0000_0000
    ensures Power(16) == 0x1_0000_0000_0000_0000_0000_0000_0000_0000
  {
    Pow2Square(8, 0x100);
    Pow2Square(16, 0x1_0000);
    Pow2Values();
    Pow2Square(64, 0x1_0000_0000_0000_0000);
  }

  function Canonical32(bits: u32): u32 {
    if IsNan(bits, SIGN32, INF32) then 0x7fc0_0000 else PlusZero(bits, SIGN32)
  }

  function Canonical64(bits: u64): u64 {
    if IsNan(bits, SIGN64, INF64) then 0x7ff8_0000_0000_0000 else PlusZero(bits, SIGN64)
  }

  /** One value handed to the hasher: an integer of some width, or a string. */
  datatype Field = Int(v: int, width: nat) | Str(text: Text) {
    predicate InRange() {
      Int? ==> -Power(width) <= v < Power(width)
    }

    function Bytes(): seq<u8>
      requires InRange()
    {
      match this
      case Int(v, width) => IntBytes(v, width)
      case Str(text) => text + [0xFF]
    }

    /** Both are strings, or integers of one type. */
    predicate Like(other: Field) {
      match (this, other)
      case (Int(v, m), Int(w, n)) => m == n && InRange() && other.InRange() && -Power(n) < v - w < Power(n)
      case (Str(_), Str(_)) => true
      case _ => false
    }
  }

  /** The values handed over one after another. */
  datatype Feed = End | More(field: Field, rest: Feed) {
    predicate InRange() {
      More? ==> field.InRange() && rest.InRange()
    }

    function Bytes(): seq<u8>
      requires InRange()
    {
      match this
      case End => []
      case More(field, rest) => field.Bytes() + rest.Bytes()
    }

    /** Value by value of the same types. */
    predicate Like(other: Feed) {
      match (this, other)
      case (End, End) => true
      case (More(f, r), More(g, t)) => f.Like(g) && r.Like(t)
      case _ => false
    }
  }

  function One(v: int, width: nat): Feed {
    More(Int(v, width), End)
  }

  function Three(v: int, width: nat, precision: u8, scale: i8): Feed {
    More(Int(v, width), More(Int(precision, 1), One(scale, 1)))
  }

  /** What `hash` hands over after the discriminant. */
  function Payload(s: Scalar): Feed {
    match s
    case Null => End
    case Boolean(v) => One(if v then 1 else 0, 1)
    case Int8(v) => One(v, 1)
    case Int16(v) => One(v, 2)
    case Int32(v) => One(v, 4)
    case Int64(v) => One(v, 8)
    case UInt8(v) => One(v, 1)
    case UInt16(v) => One(v, 2)
    case UInt32(v) => One(v, 4)
    case UInt64(v) => One(v, 8)
    case Float32(bits) => One(Canonical32(bits), 4)
    case Float64(bits) => One(Canonical64(bits), 8)
    case Decimal32(v, p, t) => Three(v, 4, p, t)
    case Decimal64(v, p, t) => Three(v, 8, p, t)
    case Decimal128(v, p, t) => Three(v, 16, p, t)
    case String32(text) => More(Str(text), End)
    case String64(text) => More(Str(text), End)
    case Datetime32(v) => One(v, 4)
    case Datetime64(v) => One(v, 8)
    case Interval => End
  }

  lemma OneLike(v: int, w: int, n: nat)
    requires -Power(n) <= v < Power(n) && -Power(n) <= w < Power(n) && -Power(n) < v - w < Power(n)
    ensures One(v, n).InRange() && One(v, n).Like(One(w, n))
  {}

  lemma ThreeLike(v: int, w: int, n: nat, p: u8, q: u8, s: i8, t: i8)
    requires -Power(n) <= v < Power(n) && -Power(n) <= w < Power(n) && -Power(n) < v - w < Power(n)
    ensures Three(v, n, p, s).InRange() && Three(v, n, p, s).Like(Three(w, n, q, t))
  {
    Powers();
    OneLike(s, t, 1);
    assert Int(p, 1).Like(Int(q, 1));
  }

  /** One variant always hands over the same types, in range. */
  lemma SameTypes(a: Scalar, b: Scalar)
    requires Discriminant(a) == Discriminant(b)
    ensures Payload(a).InRange() && Payload(a).Like(Payload(b))
  {
    Powers();
    match a
    case Boolean(v) => OneLike(if v then 1 else 0, if b.flag then 1 else 0, 1);
    case Int8(v) => OneLike(v, b.int8, 1);
    case Int16(v) => OneLike(v, b.int16, 2);
    case Int32(v) => OneLike(v, b.int32, 4);
    case Int64(v) => OneLike(v, b.int64, 8);
    case UInt8(v) => OneLike(v, b.uint8, 1);
    case UInt16(v) => OneLike(v, b.uint16, 2);
    case UInt32(v) => OneLike(v, b.uint32, 4);
    case UInt64(v) => OneLike(v, b.uint64, 8);
    case Float32(v) => OneLike(Canonical32(v), Canonical32(b.bits32), 4);
    case Float64(v) => OneLike(Canonical64(v), Canonical64(b.bits64), 8);
    case Decimal32(v, p, s) => ThreeLike(v, b.unscaled32, 4, p, b.precision, s, b.scale);
    case Decimal64(v, p, s) => ThreeLike(v, b.unscaled64, 8, p, b.precision, s, b.scale);
    case Decimal128(v, p, s) => ThreeLike(v, b.unscaled128, 16, p, b.precision, s, b.scale);
    case Datetime32(v) => OneLike(v, b.time32, 4);
    case Datetime64(v) => OneLike(v, b.time64, 8);
    case _ =>
  }

  /** Everything a scalar hands to the hasher. */
  function Handed(s: Scalar): (feed: Feed)
    ensures feed.InRange()
  {
    Powers();
    SameTypes(s, s);
    More(Int(Discriminant(s), 8), Payload(s))
  }

  function HashStream(s: Scalar): Bytes {
    Handed(s).Bytes()
  }

  // ----- equality agrees with hashing -----

  lemma IntBytesInjective(a: int, b: int, n: nat)
    requires -Power(n) <= a < Power(n) && -Power(n) <= b < Power(n) && -Power(n) < a - b < Power(n)
    requires IntBytes(a, n) == IntBytes(b, n)
    ensures a == b
  {
    ToLeFromLe(if a < 0 then a + Power(n) else a, n);
    ToLeFromLe(if b < 0 then b + Power(n) else b, n);
  }

  /** Fixed-width integers followed by anything. */
  lemma IntDelimits(a: int, b: int, n: nat, x: Bytes, y: Bytes)
    requires -Power(n) <= a < Power(n) && -Power(n) <= b < Power(n) && -Power(n) < a - b < Power(n)
    requires IntBytes(a, n) + x == IntBytes(b, n) + y
    ensures a == b
  {
    assert IntBytes(a, n) == (IntBytes(a, n) + x)[..n] == (IntBytes(b, n) + y)[..n] == IntBytes(b, n);
    IntBytesInjective(a, b, n);
  }

  /** Text ends at its terminator, because no byte of it looks like one. */
  lemma TextDelimits(s: Text, t: Text, x: Bytes, y: Bytes)
    requires s + [0xFF] + x == t + [0xFF] + y
    ensures s == t
  {
    ValidIsPlain(s);
    ValidIsPlain(t);
    var l, r := s + [0xFF] + x, t + [0xFF] + y;
    assert l[|s|] == 0xFF && r[|t|] == 0xFF;
    assert s == l[..|s|] && t == r[..|t|];
  }

  lemma {:induction false} ValidIsPlain(s: Bytes)
    requires ValidUtf8(s)
    ensures 0xFF !in s
    decreases |s|
  {
    if s != [] {
      var n := CharLen(s);
      ValidIsPlain(s[n..]);
      assert s == s[..n] + s[n..];
    }
  }

  lemma FieldDelimits(f: Field, g: Field, x: Bytes, y: Bytes)
    requires f.Like(g) && f.InRange() && g.InRange() && f.Bytes() + x == g.Bytes() + y
    ensures f == g && x == y
  {
    if f.Int? {
      IntDelimits(f.v, g.v, f.width, x, y);
    } else {
      TextDelimits(f.text, g.text, x, y);
    }
    assert (f.Bytes() + x)[|f.Bytes()|..] == x && (g.Bytes() + y)[|g.Bytes()|..] == y;
  }

  /** Values of the same types read back from their bytes, whatever follows. */
  lemma {:induction false} FeedDelimits(f: Feed, g: Feed, x: Bytes, y: Bytes)
    requires f.InRange() && g.InRange() && f.Like(g) && f.Bytes() + x == g.Bytes() + y
    ensures f == g && x == y
    decreases f
  {
    match f
    case End =>
      assert [] + x == x && [] + y == y;
    case More(field, rest) =>
      HeadDelimits(field, g.field, rest.Bytes(), g.rest.Bytes(), x, y);
      FeedDelimits(rest, g.rest, x, y);
  }

  lemma Regroup(a: Bytes, b: Bytes, c: Bytes)
    ensures (a + b) + c == a + (b + c)
  {}

  lemma HeadDelimits(f: Field, g: Field, p: Bytes, q: Bytes, x: Bytes, y: Bytes)
    requires f.Like(g) && f.InRange() && g.InRange() && (f.Bytes() + p) + x == (g.Bytes() + q) + y
    ensures f == g && p + x == q + y
  {
    Regroup(f.Bytes(), p, x);
    Regroup(g.Bytes(), q, y);
    FieldDelimits(f, g, p + x, q + y);
  }

  lemma CanonicalMeets32(a: u32, b: u32)
    ensures Canonical32(a) == Canonical32(b) <==> Eq(Float32(a), Float32(b))
  {}

  lemma CanonicalMeets64(a: u64, b: u64)
    ensures Canonical64(a) == Canonical64(b) <==> Eq(Float64(a), Float64(b))
  {}

  lemma SamePayload(a: Scalar, b: Scalar)
    requires Discriminant(a) == Discriminant(b) && !a.Float32? && !a.Float64?
    ensures Payload(a) == Payload(b) <==> a == b
  {}

  lemma OthersHanded(a: Scalar, b: Scalar)
    requires !(a.Float32? && b.Float32?) && !(a.Float64? && b.Float64?)
    ensures Handed(a) == Handed(b) <==> a == b
  {
    if Discriminant(a) == Discriminant(b) { SamePayload(a, b); }
  }

  lemma Handed32(x: u32, y: u32)
    ensures Handed(Float32(x)) == Handed(Float32(y)) <==> Canonical32(x) == Canonical32(y)
  {}

  lemma Handed64(x: u64, y: u64)
    ensures Handed(Float64(x)) == Handed(Float64(y)) <==> Canonical64(x) == Canonical64(y)
  {}

  /** The values handed over tell equal scalars from different ones. */
  lemma HandedMeetsEq(a: Scalar, b: Scalar)
    ensures Handed(a) == Handed(b) <==> Eq(a, b)
  {
    if a.Float32? && b.Float32? {
      Handed32(a.bits32, b.bits32);
      CanonicalMeets32(a.bits32, b.bits32);
    } else if a.Float64? && b.Float64? {
      Handed64(a.bits64, b.bits64);
      CanonicalMeets64(a.bits64, b.bits64);
    } else {
      OthersHanded(a, b);
      OthersEqual(a, b);
    }
  }

  /** A scalar's hash bytes end by themselves: equal starts of two streams come from equal scalars. */
  lemma StreamDelimits(a: Scalar, b: Scalar, x: Bytes, y: Bytes)
    requires HashStream(a) + x == HashStream(b) + y
    ensures Eq(a, b) && x == y
  {
    SameDiscriminant(a, b, x, y);
    SameTypes(a, b);
    FeedDelimits(Handed(a), Handed(b), x, y);
    HandedMeetsEq(a, b);
  }

  lemma SameDiscriminant(a: Scalar, b: Scalar, x: Bytes, y: Bytes)
    requires HashStream(a) + x == HashStream(b) + y
    ensures Discriminant(a) == Discriminant(b)
    ensures Handed(a).field.Like(Handed(b).field)
  {
    Powers();
    SameTypes(a, a);
    SameTypes(b, b);
    HeadDelimits(Handed(a).field, Handed(b).field, Payload(a).Bytes(), Payload(b).Bytes(), x, y);
  }

  /** Two scalars feed a hasher the same bytes exactly when they are equal. */
  lemma HashMeetsEq(a: Scalar, b: Scalar)
    ensures HashStream(a) == HashStream(b) <==> Eq(a, b)
  {
    HandedMeetsEq(a, b);
    if HashStream(a) == HashStream(b) {
      StreamDelimits(a, b, [], []);
    }
  }

  lemma EqSymmetric(a: Scalar, b: Scalar)
    ensures Eq(a, b) <==> Eq(b, a)
  {
    EqExactlyWhen(a, b);
    EqExactlyWhen(b, a);
  }

  lemma EqTransitive(a: Scalar, b: Scalar, c: Scalar)
    requires Eq(a, b) && Eq(b, c)
    ensures Eq(a, c)
  {
    EqExactlyWhen(a, b);
    EqExactlyWhen(b, c);
    EqExactlyWhen(a, c);
  }

  /** Equality is an equivalence, NaN and the zeros included. */
  lemma EqIsEquivalence(a: Scalar, b: Scalar, c: Scalar)
    ensures Eq(a, a)
    ensures Eq(a, b) ==> Eq(b, a)
    ensures Eq(a, b) && Eq(b, c) ==> Eq(a, c)
  {
    EqExactlyWhen(a, a);
    EqSymmetric(a, b);
    if Eq(a, b) && Eq(b, c) { EqTransitive(a, b, c); }
  }

  // ----- keys of several scalars -----

  function KeyBytes(key: seq<Scalar>): Bytes {
    if key == [] then [] else HashStream(key[0]) + KeyBytes(key[1..])
  }

  predicate KeysEq(a: seq<Scalar>, b: seq<Scalar>) {
    |a| == |b| && forall i :: 0 <= i < |a| ==> Eq(a[i], b[i])
  }

  lemma StreamNotEmpty(s: Scalar)
    ensures |HashStream(s)| >= 8
  {
    assert Handed(s).field.Bytes() == IntBytes(Discriminant(s), 8);
  }

  /** Keys over several columns: their streams run together, yet two keys feed the same bytes exactly when they
      are equal scalar by scalar. */
  lemma {:induction false} KeysHashMeetsEq(a: seq<Scalar>, b: seq<Scalar>)
    ensures KeyBytes(a) == KeyBytes(b) <==> KeysEq(a, b)
    decreases |a|
  {
    if a == [] || b == [] {
      if a != [] { StreamNotEmpty(a[0]); }
      if b != [] { StreamNotEmpty(b[0]); }
    } else {
      KeysHashMeetsEq(a[1..], b[1..]);
      HashMeetsEq(a[0], b[0]);
      if KeysEq(a, b) { assert KeysEq(a[1..], b[1..]); }
      if KeyBytes(a) == KeyBytes(b) {
        StreamDelimits(a[0], b[0], KeyBytes(a[1..]), KeyBytes(b[1..]));
      }
    }
  }
}
