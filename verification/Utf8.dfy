/** UTF-8 well-formedness by section 4 of RFC 3629, and where valid text may be cut. */
module Utf8 {
  import opened Words

  type Bytes = seq<u8>

  predicate Tail(b: u8) {
    0x80 <= b <= 0xBF
  }

  /** The length of the well-formed character `s` starts with, or 0 when it starts with none. */
  function CharLen(s: Bytes): (n: nat)
    ensures n <= 4 && n <= |s|
  {
    if s == [] then 0
    else if s[0] <= 0x7F then 1
    else if 0xC2 <= s[0] <= 0xDF then
      (if |s| >= 2 && Tail(s[1]) then 2 else 0)
    else if 0xE0 <= s[0] <= 0xEF then
      (if |s| >= 3 && ThirdClass(s[0], s[1]) && Tail(s[2]) then 3 else 0)
    else if 0xF0 <= s[0] <= 0xF4 then
      (if |s| >= 4 && FourthClass(s[0], s[1]) && Tail(s[2]) && Tail(s[3]) then 4 else 0)
    else 0
  }

  /** The second octet of a three-octet character. */
  predicate ThirdClass(first: u8, second: u8) {
    if first == 0xE0 then 0xA0 <= second <= 0xBF
    else if first == 0xED then 0x80 <= second <= 0x9F
    else Tail(second)
  }

  /** The second octet of a four-octet character. */
  predicate FourthClass(first: u8, second: u8) {
    if first == 0xF0 then 0x90 <= second <= 0xBF
    else if first == 0xF4 then 0x80 <= second <= 0x8F
    else Tail(second)
  }

  predicate ValidUtf8(s: Bytes) {
    s == [] || (CharLen(s) > 0 && ValidUtf8(s[CharLen(s)..]))
  }

  /** `str::is_char_boundary` */
  predicate Boundary(s: Bytes, i: nat) {
    i == 0 || i == |s| || (i < |s| && !Tail(s[i]))
  }

  // ----- text is what encoding scalar values gives -----

  /** A Unicode scalar value: a code point that is no surrogate. */
  predicate IsScalarValue(c: nat) {
    c < 0xD800 || 0xE000 <= c <= 0x10FFFF
  }

  /** The octets of a scalar value, six bits to each after the first. */
  function EncodeChar(c: nat): (s: Bytes)
    requires IsScalarValue(c)
    ensures 1 <= |s| <= 4
  {
    if c < 0x80 then [c]
    else if c < 0x800 then [0xC0 + c / 64, 0x80 + c % 64]
    else if c < 0x1_0000 then [0xE0 + c / 64 / 64, 0x80 + c / 64 % 64, 0x80 + c % 64]
    else [0xF0 + c / 64 / 64 / 64, 0x80 + c / 64 / 64 % 64, 0x80 + c / 64 % 64, 0x80 + c % 64]
  }

  predicate AllScalars(cs: seq<nat>) {
    forall c :: c in cs ==> IsScalarValue(c)
  }

  function EncodeAll(cs: seq<nat>): Bytes
    requires AllScalars(cs)
  {
    if cs == [] then [] else EncodeChar(cs[0]) + EncodeAll(cs[1..])
  }

  /** An encoded scalar value is a well-formed character. */
  lemma EncodedIsChar(c: nat, rest: Bytes)
    requires IsScalarValue(c)
    ensures CharLen(EncodeChar(c) + rest) == |EncodeChar(c)|
  {
    var s := EncodeChar(c) + rest;
    assert s[0] == EncodeChar(c)[0];
    if |EncodeChar(c)| > 1 { assert s[1] == EncodeChar(c)[1]; }
    if |EncodeChar(c)| > 2 { assert s[2] == EncodeChar(c)[2]; }
    if |EncodeChar(c)| > 3 { assert s[3] == EncodeChar(c)[3]; }
  }

  /** Six more bits, from a tail octet. */
  function Six(high: nat, tail: u8): (c: nat)
    requires Tail(tail)
    ensures c / 64 == high && 0x80 + c % 64 == tail
  {
    64 * high + (tail - 0x80)
  }

  /** A well-formed character is an encoded scalar value. */
  lemma CharIsEncoded(s: Bytes) returns (c: nat)
    requires CharLen(s) > 0
    ensures IsScalarValue(c) && EncodeChar(c) == s[..CharLen(s)]
  {
    if CharLen(s) == 1 {
      c := s[0];
    } else if CharLen(s) == 2 {
      c := Six(s[0] - 0xC0, s[1]);
    } else if CharLen(s) == 3 {
      c := Six(Six(s[0] - 0xE0, s[1]), s[2]);
    } else {
      c := Six(Six(Six(s[0] - 0xF0, s[1]), s[2]), s[3]);
    }
  }

  lemma {:induction false} EncodedIsValid(cs: seq<nat>)
    requires AllScalars(cs)
    ensures ValidUtf8(EncodeAll(cs))
  {
    if cs != [] {
      EncodedIsValid(cs[1..]);
      EncodedIsChar(cs[0], EncodeAll(cs[1..]));
      assert EncodeAll(cs)[|EncodeChar(cs[0])|..] == EncodeAll(cs[1..]);
    }
  }

  lemma {:induction false} ValidIsEncoded(s: Bytes) returns (cs: seq<nat>)
    requires ValidUtf8(s)
    ensures AllScalars(cs) && EncodeAll(cs) == s
    decreases |s|
  {
    cs := [];
    if s != [] {
      var c := CharIsEncoded(s);
      var rest := ValidIsEncoded(s[CharLen(s)..]);
      cs := [c] + rest;
      EncodedFirst(c, rest);
      assert s == s[..CharLen(s)] + s[CharLen(s)..];
    }
  }

  lemma EncodedFirst(c: nat, rest: seq<nat>)
    requires IsScalarValue(c) && AllScalars(rest)
    ensures AllScalars([c] + rest) && EncodeAll([c] + rest) == EncodeChar(c) + EncodeAll(rest)
  {
    assert ([c] + rest)[1..] == rest;
  }

  /** The valid byte strings are exactly the encodings of scalar values. */
  lemma ValidExactlyWhenEncoded(s: Bytes)
    ensures ValidUtf8(s) <==> exists cs: seq<nat> :: AllScalars(cs) && s == EncodeAll(cs)
  {
    if ValidUtf8(s) {
      var cs := ValidIsEncoded(s);
    }
    forall cs: seq<nat> | AllScalars(cs) && s == EncodeAll(cs) ensures ValidUtf8(s) {
      EncodedIsValid(cs);
    }
  }

  // ----- cutting and joining -----

  /** Inside a character every octet but the first is a tail. */
  lemma CharShape(s: Bytes, i: nat)
    requires i < CharLen(s)
    ensures Tail(s[i]) <==> i > 0
  {}

  /** A character is recognised by its own octets alone. */
  lemma CharLenLocal(s: Bytes, m: nat)
    requires CharLen(s) <= m <= |s|
    ensures CharLen(s) > 0 ==> CharLen(s[..m]) == CharLen(s)
  {}

  lemma CharLenExtend(a: Bytes, b: Bytes)
    requires CharLen(a) > 0
    ensures CharLen(a + b) == CharLen(a)
  {}

  /** Valid text cut at a boundary leaves two valid texts. */
  lemma {:induction false} CutAtBoundary(s: Bytes, i: nat)
    requires ValidUtf8(s) && i <= |s| && Boundary(s, i)
    ensures ValidUtf8(s[..i]) && ValidUtf8(s[i..])
  {
    if i == 0 {
      assert s[0..] == s;
    } else {
      var n := CharLen(s);
      if i < n {
        CharShape(s, i);
        assert false;
      } else {
        CutAtBoundary(s[n..], i - n);
        CharLenLocal(s, i);
        assert s[..i][n..] == s[n..][..i - n];
        assert s[n..][i - n..] == s[i..];
      }
    }
  }

  lemma {:induction false} JoinValid(a: Bytes, b: Bytes)
    requires ValidUtf8(a) && ValidUtf8(b)
    ensures ValidUtf8(a + b)
  {
    if a == [] {
      assert a + b == b;
    } else {
      var n := CharLen(a);
      JoinValid(a[n..], b);
      CharLenLocal(a, n);
      JoinAfterChar(a, n, b);
    }
  }

  lemma JoinAfterChar(a: Bytes, n: nat, b: Bytes)
    requires n <= |a| && CharLen(a[..n]) == n > 0 && ValidUtf8(a[n..] + b)
    ensures ValidUtf8(a + b)
  {
    Regroup(a, n, b);
    PrependChar(a[..n], a[n..] + b);
  }

  lemma Regroup(a: Bytes, n: nat, b: Bytes)
    requires n <= |a|
    ensures a[..n] + (a[n..] + b) == a + b
  {}

  lemma PrependChar(c: Bytes, rest: Bytes)
    requires CharLen(c) == |c| > 0 && ValidUtf8(rest)
    ensures ValidUtf8(c + rest)
  {
    CharLenExtend(c, rest);
    assert (c + rest)[|c|..] == rest;
  }

  /** What is left of valid text after a valid prefix is valid. */
  lemma {:induction false} RestValid(s: Bytes, m: nat)
    requires m <= |s| && ValidUtf8(s) && ValidUtf8(s[..m])
    ensures ValidUtf8(s[m..])
  {
    if m == 0 {
      assert s[0..] == s;
    } else {
      var n := CharLen(s[..m]);
      CharLenExtend(s[..m], s[m..]);
      assert s[..m] + s[m..] == s;
      assert s[..m][n..] == s[n..][..m - n];
      RestValid(s[n..], m - n);
      assert s[n..][m - n..] == s[m..];
    }
  }

  lemma SliceAtBoundaries(s: Bytes, i: nat, j: nat)
    requires ValidUtf8(s) && i <= j <= |s| && Boundary(s, i) && Boundary(s, j)
    ensures ValidUtf8(s[i..j])
  {
    CutAtBoundary(s, j);
    CutAtBoundary(s[..j], i);
    assert s[..j][i..] == s[i..j];
  }

  /** From a boundary, a valid slice ends on a boundary. */
  lemma ValidSliceEndsOnBoundary(s: Bytes, i: nat, j: nat)
    requires ValidUtf8(s) && i <= j <= |s| && Boundary(s, i) && ValidUtf8(s[i..j])
    ensures Boundary(s, j)
  {
    SliceParts(s, i, j);
    TailValid(s, i);
    ValidPrefixEndsOnBoundary(s[i..], s[i..j], s[j..]);
  }

  lemma SliceParts(s: Bytes, i: nat, j: nat)
    requires i <= j <= |s|
    ensures s[i..] == s[i..j] + s[j..] && (j < |s| ==> s[j..][0] == s[j])
  {}

  lemma TailValid(s: Bytes, i: nat)
    requires ValidUtf8(s) && i <= |s| && Boundary(s, i)
    ensures ValidUtf8(s[i..])
  {
    CutAtBoundary(s, i);
  }

  lemma ValidPrefixEndsOnBoundary(s: Bytes, before: Bytes, after: Bytes)
    requires ValidUtf8(s) && ValidUtf8(before) && s == before + after
    ensures after != [] ==> !Tail(after[0])
  {
    assert s[..|before|] == before && s[|before|..] == after;
    RestValid(s, |before|);
  }
}
