/** Machine words as naturals below a power of two, with the shifts and bitwise operators of Rust's
    unsigned integers written out. Bit 0 is the least significant bit. */
module Words {
  type u8 = x: int | 0 <= x < 0x100
  type u64 = x: int | 0 <= x < 0x1_0000_0000_0000_0000

  function Pow2(n: nat): (p: nat)
    ensures p > 0
  {
    if n == 0 then 1 else 2 * Pow2(n - 1)
  }

  /** The bit of weight `2^k`. */
  predicate Bit(w: nat, k: nat)
    decreases k, w
  {
    if k == 0 then w % 2 == 1 else Bit(w / 2, k - 1)
  }

  /** `w >> s` */
  function Shr(w: nat, s: nat): nat
    decreases s, w
  {
    if s == 0 then w else Shr(w / 2, s - 1)
  }

  /** `w * 2^s`, before truncation to a word width. */
  function Scale(w: nat, s: nat): nat
    decreases s, w
  {
    if s == 0 then w else 2 * Scale(w, s - 1)
  }

  /** The low `width` bits of `w`. */
  function Truncate(w: nat, width: nat): nat
    decreases width, w
  {
    if width == 0 then 0 else 2 * Truncate(w / 2, width - 1) + w % 2
  }

  /** `w << s` on words of `width` bits: bits pushed past the top are lost. */
  function Shl(w: nat, s: nat, width: nat): nat {
    Truncate(Scale(w, s), width)
  }

  /** `a & b` */
  function And(a: nat, b: nat): nat {
    if a == 0 then 0 else 2 * And(a / 2, b / 2) + (if a % 2 == 1 && b % 2 == 1 then 1 else 0)
  }

  /** `a | b` */
  function Or(a: nat, b: nat): nat
    decreases a + b
  {
    if a == 0 && b == 0 then 0
    else 2 * Or(a / 2, b / 2) + (if a % 2 == 1 || b % 2 == 1 then 1 else 0)
  }

  /** `a ^ b` */
  function Xor(a: nat, b: nat): nat
    decreases a + b
  {
    if a == 0 && b == 0 then 0
    else 2 * Xor(a / 2, b / 2) + (if a % 2 != b % 2 then 1 else 0)
  }

  /** `!a` on words of `width` bits */
  function Not(a: nat, width: nat): nat
    decreases width, a
  {
    if width == 0 then 0 else 2 * Not(a / 2, width - 1) + (1 - a % 2)
  }

  /** `(1 << n) - 1` */
  function LowMask(n: nat): nat {
    Pow2(n) - 1
  }

  // ----- what the operators do to each bit -----

  lemma {:induction false} BitZero(k: nat)
    ensures !Bit(0, k)
  {
    if k > 0 { BitZero(k - 1); }
  }

  lemma {:induction false} BitShr(w: nat, s: nat, k: nat)
    ensures Bit(Shr(w, s), k) == Bit(w, s + k)
    decreases s
  {
    if s > 0 { BitShr(w / 2, s - 1, k); }
  }

  lemma {:induction false} BitScale(w: nat, s: nat, k: nat)
    ensures Bit(Scale(w, s), k) == (s <= k && Bit(w, k - s))
    decreases s
  {
    if s > 0 {
      assert Scale(w, s) / 2 == Scale(w, s - 1) && Scale(w, s) % 2 == 0;
      if k > 0 { BitScale(w, s - 1, k - 1); }
    }
  }

  lemma {:induction false} BitTruncate(w: nat, width: nat, k: nat)
    ensures Bit(Truncate(w, width), k) == (k < width && Bit(w, k))
    decreases width
  {
    if width == 0 {
      BitZero(k);
    } else if k > 0 {
      assert Truncate(w, width) / 2 == Truncate(w / 2, width - 1);
      BitTruncate(w / 2, width - 1, k - 1);
    }
  }

  lemma BitShl(w: nat, s: nat, width: nat, k: nat)
    ensures Bit(Shl(w, s, width), k) == (s <= k < width && Bit(w, k - s))
  {
    BitTruncate(Scale(w, s), width, k);
    BitScale(w, s, k);
  }

  lemma {:induction false} BitAnd(a: nat, b: nat, k: nat)
    ensures Bit(And(a, b), k) == (Bit(a, k) && Bit(b, k))
    decreases k
  {
    if a == 0 {
      BitZero(k);
    } else if k > 0 {
      assert And(a, b) / 2 == And(a / 2, b / 2);
      BitAnd(a / 2, b / 2, k - 1);
    }
  }

  /** The bits of a doubled word with a new lowest bit. */
  lemma DoubledBit(h: nat, low: nat, k: nat)
    requires low < 2
    ensures Bit(2 * h + low, k) == if k == 0 then low == 1 else Bit(h, k - 1)
  {
    assert (2 * h + low) / 2 == h;
  }

  lemma {:induction false} BitOr(a: nat, b: nat, k: nat)
    ensures Bit(Or(a, b), k) == (Bit(a, k) || Bit(b, k))
    decreases k
  {
    if a == 0 && b == 0 {
      BitZero(k);
    } else {
      DoubledBit(Or(a / 2, b / 2), if a % 2 == 1 || b % 2 == 1 then 1 else 0, k);
      if k > 0 { BitOr(a / 2, b / 2, k - 1); }
    }
  }

  lemma {:induction false} BitNot(a: nat, width: nat, k: nat)
    ensures Bit(Not(a, width), k) == (k < width && !Bit(a, k))
    decreases width
  {
    if width == 0 {
      BitZero(k);
    } else if k > 0 {
      assert Not(a, width) / 2 == Not(a / 2, width - 1);
      BitNot(a / 2, width - 1, k - 1);
    }
  }

  lemma {:induction false} BitLowMask(n: nat, k: nat)
    ensures Bit(LowMask(n), k) == (k < n)
    decreases n
  {
    if n == 0 {
      BitZero(k);
    } else if k > 0 {
      assert LowMask(n) / 2 == LowMask(n - 1);
      BitLowMask(n - 1, k - 1);
    }
  }

  lemma {:induction false} BitXor(a: nat, b: nat, k: nat)
    ensures Bit(Xor(a, b), k) == (Bit(a, k) != Bit(b, k))
    decreases k
  {
    if a == 0 && b == 0 {
      BitZero(k);
    } else {
      DoubledBit(Xor(a / 2, b / 2), if a % 2 != b % 2 then 1 else 0, k);
      if k > 0 { BitXor(a / 2, b / 2, k - 1); }
    }
  }

  // ----- what bits and shifts are in numbers -----

  lemma AtLeast(x: int, d: nat)
    ensures x >= 1 ==> x * d >= d
    ensures x <= -1 ==> x * d <= 0 - d
  {
    if x >= 1 {
      assert x * d == (x - 1) * d + d && (x - 1) * d >= 0;
    } else if x <= -1 {
      assert x * d == (x + 1) * d - d && (x + 1) * d <= 0;
    }
  }

  /** Quotient and remainder are unique. */
  lemma QuotientUnique(d: nat, q: int, r: nat, p: int, t: nat)
    requires q * d + r == p * d + t && r < d && t < d
    ensures q == p && r == t
  {
    AtLeast(q - p, d);
    assert (q - p) * d == q * d - p * d;
  }

  lemma HalfThenDivide(w: nat, p: nat)
    requires p > 0
    ensures w / (2 * p) == w / 2 / p && w % (2 * p) == 2 * (w / 2 % p) + w % 2
  {
    var q, r := w / 2 / p, w / 2 % p;
    HalfParts(w, p, q, r);
    var d := 2 * p;
    assert w == w / d * d + w % d;
    QuotientUnique(d, w / d, w % d, q, 2 * r + w % 2);
  }

  lemma HalfParts(w: nat, p: nat, q: nat, r: nat)
    requires w / 2 == q * p + r
    ensures w == q * (2 * p) + (2 * r + w % 2)
  {
    assert q * (2 * p) == 2 * (q * p);
  }

  /** Bit `k` is the parity of the word over two to the `k`. */
  lemma {:induction false} BitIs(w: nat, k: nat)
    ensures Bit(w, k) <==> w / Pow2(k) % 2 == 1
    decreases k
  {
    if k > 0 {
      BitIs(w / 2, k - 1);
      HalfThenDivide(w, Pow2(k - 1));
    }
  }

  /** Shifting right divides, truncating takes the remainder. */
  lemma {:induction false} ShiftDivides(w: nat, s: nat)
    ensures Shr(w, s) == w / Pow2(s) && Truncate(w, s) == w % Pow2(s)
    decreases s
  {
    if s > 0 {
      ShiftDivides(w / 2, s - 1);
      HalfThenDivide(w, Pow2(s - 1));
    }
  }

  /** Shifting left multiplies, before bits are lost. */
  lemma {:induction false} ScaleMultiplies(w: nat, s: nat)
    ensures Scale(w, s) == w * Pow2(s)
  {
    if s > 0 { ScaleMultiplies(w, s - 1); }
  }

  // ----- ranges -----

  lemma {:induction false} TruncateBound(w: nat, width: nat)
    ensures Truncate(w, width) < Pow2(width)
    decreases width
  {
    if width > 0 { TruncateBound(w / 2, width - 1); }
  }

  lemma {:induction false} TruncateFits(w: nat, width: nat)
    requires w < Pow2(width)
    ensures Truncate(w, width) == w
    decreases width
  {
    if width > 0 { TruncateFits(w / 2, width - 1); }
  }

  lemma {:induction false} Pow2Grows(a: nat, b: nat)
    requires a <= b
    ensures Pow2(a) <= Pow2(b)
  {
    if a < b { Pow2Grows(a, b - 1); }
  }

  lemma {:induction false} NotBound(w: nat, width: nat)
    ensures Not(w, width) < Pow2(width)
    decreases width
  {
    if width > 0 { NotBound(w / 2, width - 1); }
  }

  lemma {:induction false} ShrBound(w: nat, s: nat)
    ensures Shr(w, s) <= w
    decreases s
  {
    if s > 0 { ShrBound(w / 2, s - 1); }
  }

  lemma {:induction false} AndBound(a: nat, b: nat)
    ensures And(a, b) <= a
  {
    if a > 0 { AndBound(a / 2, b / 2); }
  }

  lemma {:induction false} OrBound(a: nat, b: nat, n: nat)
    requires a < Pow2(n) && b < Pow2(n)
    ensures Or(a, b) < Pow2(n)
    decreases n
  {
    if n > 0 { OrBound(a / 2, b / 2, n - 1); }
  }

  lemma {:induction false} XorBound(a: nat, b: nat, n: nat)
    requires a < Pow2(n) && b < Pow2(n)
    ensures Xor(a, b) < Pow2(n)
    decreases n
  {
    if n > 0 { XorBound(a / 2, b / 2, n - 1); }
  }

  lemma Pow2Values()
    ensures Pow2(8) == 0x100 && Pow2(64) == 0x1_0000_0000_0000_0000
  {
    Pow2Square(4, 0x10);
    Pow2Square(8, 0x100);
    Pow2Square(16, 0x1_0000);
    Pow2Square(32, 0x1_0000_0000);
  }

  lemma Pow2Square(n: nat, p: nat)
    requires Pow2(n) == p
    ensures Pow2(n + n) == p * p
  {
    Pow2Add(n, n);
  }

  lemma {:induction false} Pow2Add(a: nat, b: nat)
    ensures Pow2(a + b) == Pow2(a) * Pow2(b)
  {
    if a > 0 { Pow2Add(a - 1, b); }
  }

  lemma {:induction false} LowMaskBound(n: nat, width: nat)
    requires n <= width
    ensures LowMask(n) < Pow2(width)
  {
    if n > 0 { LowMaskBound(n - 1, width - 1); }
  }

  /** Bits at and above the width of a word are clear. */
  lemma {:induction false} BitAboveWidth(w: nat, width: nat, k: nat)
    requires w < Pow2(width) && width <= k
    ensures !Bit(w, k)
    decreases width
  {
    if width == 0 { BitZero(k); } else { BitAboveWidth(w / 2, width - 1, k - 1); }
  }

  /** A word is determined by its bits. */
  lemma {:induction false} WordsEqual(a: nat, b: nat, width: nat)
    requires a < Pow2(width) && b < Pow2(width)
    requires forall k: nat :: k < width ==> Bit(a, k) == Bit(b, k)
    ensures a == b
    decreases width
  {
    if width > 0 {
      assert Bit(a, 0) == Bit(b, 0);
      forall k: nat | k < width - 1 ensures Bit(a / 2, k) == Bit(b / 2, k) {
        assert Bit(a, k + 1) == Bit(b, k + 1);
      }
      WordsEqual(a / 2, b / 2, width - 1);
    }
  }

  lemma BytesEqual(a: u8, b: u8)
    requires forall k: nat :: k < 8 ==> Bit(a, k) == Bit(b, k)
    ensures a == b
  {
    Pow2Values();
    WordsEqual(a, b, 8);
  }

  // ----- the operators on u8 -----

  function Shr8(a: u8, s: nat): (r: u8)
    ensures forall k: nat :: Bit(r, k) == Bit(a, s + k)
  {
    ShrBound(a, s);
    assert forall k: nat :: Bit(Shr(a, s), k) == Bit(a, s + k) by {
      forall k: nat ensures Bit(Shr(a, s), k) == Bit(a, s + k) { BitShr(a, s, k); }
    }
    Shr(a, s)
  }

  function Shl8(a: u8, s: nat): (r: u8)
    ensures forall k: nat :: Bit(r, k) == (s <= k < 8 && Bit(a, k - s))
  {
    Pow2Values();
    TruncateBound(Scale(a, s), 8);
    assert forall k: nat :: Bit(Shl(a, s, 8), k) == (s <= k < 8 && Bit(a, k - s)) by {
      forall k: nat ensures Bit(Shl(a, s, 8), k) == (s <= k < 8 && Bit(a, k - s)) { BitShl(a, s, 8, k); }
    }
    Shl(a, s, 8)
  }

  function And8(a: u8, b: u8): (r: u8)
    ensures forall k: nat :: Bit(r, k) == (Bit(a, k) && Bit(b, k))
  {
    AndBound(a, b);
    assert forall k: nat :: Bit(And(a, b), k) == (Bit(a, k) && Bit(b, k)) by {
      forall k: nat ensures Bit(And(a, b), k) == (Bit(a, k) && Bit(b, k)) { BitAnd(a, b, k); }
    }
    And(a, b)
  }

  function Or8(a: u8, b: u8): (r: u8)
    ensures forall k: nat :: Bit(r, k) == (Bit(a, k) || Bit(b, k))
  {
    Pow2Values();
    OrBound(a, b, 8);
    assert forall k: nat :: Bit(Or(a, b), k) == (Bit(a, k) || Bit(b, k)) by {
      forall k: nat ensures Bit(Or(a, b), k) == (Bit(a, k) || Bit(b, k)) { BitOr(a, b, k); }
    }
    Or(a, b)
  }

  function Not8(a: u8): (r: u8)
    ensures forall k: nat :: Bit(r, k) == (k < 8 && !Bit(a, k))
  {
    Pow2Values();
    NotBound(a, 8);
    assert forall k: nat :: Bit(Not(a, 8), k) == (k < 8 && !Bit(a, k)) by {
      forall k: nat ensures Bit(Not(a, 8), k) == (k < 8 && !Bit(a, k)) { BitNot(a, 8, k); }
    }
    Not(a, 8)
  }

  /** `(1 << n) - 1` */
  function LowMask8(n: nat): (r: u8)
    requires n < 8
    ensures forall k: nat :: Bit(r, k) == (k < n)
  {
    LowMaskBound(n, 8);
    Pow2Values();
    assert forall k: nat :: Bit(LowMask(n), k) == (k < n) by {
      forall k: nat ensures Bit(LowMask(n), k) == (k < n) { BitLowMask(n, k); }
    }
    LowMask(n)
  }

  // ----- the operators on u64 -----

  function Shr64(a: u64, s: nat): (r: u64)
    ensures forall k: nat :: Bit(r, k) == Bit(a, s + k)
  {
    ShrBound(a, s);
    assert forall k: nat :: Bit(Shr(a, s), k) == Bit(a, s + k) by {
      forall k: nat ensures Bit(Shr(a, s), k) == Bit(a, s + k) { BitShr(a, s, k); }
    }
    Shr(a, s)
  }

  function Shl64(a: u64, s: nat): (r: u64)
    ensures forall k: nat :: Bit(r, k) == (s <= k < 64 && Bit(a, k - s))
  {
    Pow2Values();
    TruncateBound(Scale(a, s), 64);
    assert forall k: nat :: Bit(Shl(a, s, 64), k) == (s <= k < 64 && Bit(a, k - s)) by {
      forall k: nat ensures Bit(Shl(a, s, 64), k) == (s <= k < 64 && Bit(a, k - s)) { BitShl(a, s, 64, k); }
    }
    Shl(a, s, 64)
  }

  function And64(a: u64, b: u64): (r: u64)
    ensures forall k: nat :: Bit(r, k) == (Bit(a, k) && Bit(b, k))
  {
    AndBound(a, b);
    assert forall k: nat :: Bit(And(a, b), k) == (Bit(a, k) && Bit(b, k)) by {
      forall k: nat ensures Bit(And(a, b), k) == (Bit(a, k) && Bit(b, k)) { BitAnd(a, b, k); }
    }
    And(a, b)
  }

  function Or64(a: u64, b: u64): (r: u64)
    ensures forall k: nat :: Bit(r, k) == (Bit(a, k) || Bit(b, k))
  {
    Pow2Values();
    OrBound(a, b, 64);
    assert forall k: nat :: Bit(Or(a, b), k) == (Bit(a, k) || Bit(b, k)) by {
      forall k: nat ensures Bit(Or(a, b), k) == (Bit(a, k) || Bit(b, k)) { BitOr(a, b, k); }
    }
    Or(a, b)
  }

  function Not64(a: u64): (r: u64)
    ensures forall k: nat :: Bit(r, k) == (k < 64 && !Bit(a, k))
  {
    Pow2Values();
    NotBound(a, 64);
    assert forall k: nat :: Bit(Not(a, 64), k) == (k < 64 && !Bit(a, k)) by {
      forall k: nat ensures Bit(Not(a, 64), k) == (k < 64 && !Bit(a, k)) { BitNot(a, 64, k); }
    }
    Not(a, 64)
  }

  /** `(1 << n) - 1` */
  function LowMask64(n: nat): (r: u64)
    requires n < 64
    ensures forall k: nat :: Bit(r, k) == (k < n)
  {
    LowMaskBound(n, 64);
    Pow2Values();
    assert forall k: nat :: Bit(LowMask(n), k) == (k < n) by {
      forall k: nat ensures Bit(LowMask(n), k) == (k < n) { BitLowMask(n, k); }
    }
    LowMask(n)
  }

  // ----- little-endian bytes -----

  /** `from_le_bytes` */
  function FromLe(bytes: seq<u8>): nat {
    if bytes == [] then 0 else bytes[0] + 0x100 * FromLe(bytes[1..])
  }

  /** The `n` low bytes of `w`, as `to_le_bytes` gives them. */
  function ToLe(w: nat, n: nat): (bytes: seq<u8>)
    ensures |bytes| == n
    decreases n, w
  {
    if n == 0 then [] else [w % 0x100] + ToLe(w / 0x100, n - 1)
  }

  lemma {:induction false} FromLeBound(bytes: seq<u8>)
    ensures FromLe(bytes) < Pow2(8 * |bytes|)
  {
    if bytes != [] {
      FromLeBound(bytes[1..]);
      Pow2Values();
      Pow2Add(8, 8 * |bytes[1..]|);
    }
  }

  /** Eight bytes as a little-endian word. */
  function WordAt(bytes: seq<u8>): (w: u64)
    requires |bytes| == 8
    ensures w == FromLe(bytes)
  {
    FromLeBound(bytes);
    Pow2Values();
    FromLe(bytes)
  }

  lemma ShrNibble(w: nat)
    ensures Shr(w, 4) == w / 16
  {
    assert Shr(w, 4) == Shr(w / 2, 3) == Shr(w / 2 / 2, 2) == Shr(w / 2 / 2 / 2, 1);
  }

  lemma TruncateNibble(w: nat, n: nat)
    ensures Truncate(w, n + 4) == 16 * Truncate(w / 16, n) + w % 16
  {
    assert Truncate(w, n + 4) == 2 * Truncate(w / 2, n + 3) + w % 2;
    assert Truncate(w / 2, n + 3) == 2 * Truncate(w / 2 / 2, n + 2) + w / 2 % 2;
    assert Truncate(w / 2 / 2, n + 2) == 2 * Truncate(w / 2 / 2 / 2, n + 1) + w / 2 / 2 % 2;
    assert Truncate(w / 2 / 2 / 2, n + 1) == 2 * Truncate(w / 2 / 2 / 2 / 2, n) + w / 2 / 2 / 2 % 2;
    assert w / 2 / 2 / 2 / 2 == w / 16;
  }

  lemma {:induction false} ShrShr(w: nat, a: nat, b: nat)
    ensures Shr(Shr(w, a), b) == Shr(w, a + b)
    decreases a
  {
    if a > 0 { ShrShr(w / 2, a - 1, b); }
  }

  lemma ShrByte(w: nat)
    ensures Shr(w, 8) == w / 0x100
  {
    ShrShr(w, 4, 4);
    ShrNibble(w);
    ShrNibble(w / 16);
  }

  lemma SplitByte(w: nat)
    ensures w % 0x100 == 16 * (w / 16 % 16) + w % 16
  {
    var q := w / 16;
    assert w == 0x100 * (q / 16) + 16 * (q % 16) + w % 16;
  }

  lemma TruncateByte(w: nat, n: nat)
    requires n == 0
    ensures Truncate(w, n + 4 + 4) == w % 0x100
  {
    TruncateNibble(w, n + 4);
    TruncateNibble(w / 16, n);
    SplitByte(w);
    assert Truncate(w / 16 / 16, n) == 0;
  }

  lemma BitLowByte(w: nat, k: nat)
    ensures k < 8 ==> Bit(w % 0x100, k) == Bit(w, k)
    ensures Bit(w / 0x100, k) == Bit(w, k + 8)
  {
    ShrByte(w);
    BitShr(w, 8, k);
    TruncateByte(w, 0);
    BitTruncate(w, 8, k);
  }

  lemma {:induction false} BitFromLe(bytes: seq<u8>, k: nat)
    ensures Bit(FromLe(bytes), k) == (k < 8 * |bytes| && Bit(bytes[k / 8], k % 8))
  {
    if bytes == [] {
      BitZero(k);
    } else {
      var w := FromLe(bytes);
      BitLowByte(w, if k < 8 then k else k - 8);
      if k >= 8 { BitFromLe(bytes[1..], k - 8); }
    }
  }

  lemma {:induction false} BitToLe(w: nat, n: nat, k: nat)
    requires k < 8 * n
    ensures Bit(ToLe(w, n)[k / 8], k % 8) == Bit(w, k)
    decreases n
  {
    BitLowByte(w, if k < 8 then k else k - 8);
    if k >= 8 { BitToLe(w / 0x100, n - 1, k - 8); }
  }

  lemma BitOfByte(w: nat, n: nat, t: nat, k: nat)
    requires t < n && k < 8
    ensures Bit(ToLe(w, n)[t], k) == Bit(w, 8 * t + k)
  {
    BitToLe(w, n, 8 * t + k);
    assert (8 * t + k) / 8 == t && (8 * t + k) % 8 == k;
  }

  lemma LowByte(b: u8, high: nat)
    ensures (b + 0x100 * high) % 0x100 == b && (b + 0x100 * high) / 0x100 == high
  {}

  lemma {:induction false} FromLeToLe(bytes: seq<u8>)
    ensures ToLe(FromLe(bytes), |bytes|) == bytes
  {
    if bytes != [] {
      FromLeToLe(bytes[1..]);
      LowByte(bytes[0], FromLe(bytes[1..]));
    }
  }

  lemma {:induction false} ToLeFromLe(w: nat, n: nat)
    requires w < Pow2(8 * n)
    ensures FromLe(ToLe(w, n)) == w
    decreases n
  {
    if n > 0 {
      Pow2Values();
      Pow2Add(8, 8 * (n - 1));
      ToLeFromLe(w / 0x100, n - 1);
      assert ToLe(w, n)[1..] == ToLe(w / 0x100, n - 1);
    }
  }
}
