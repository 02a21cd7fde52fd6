/** The packed validity mask: bit `i` lives in byte `i / 8` at weight `2^(i % 8)`. */
module Bitmasks {
  import opened Words
  import opened Buffers

  // ----- packed bytes as a sequence of bits -----

  /** Bytes needed for `n` bits. */
  function ByteCount(n: nat): nat {
    (n + 7) / 8
  }

  predicate BitAt(bytes: seq<u8>, i: nat)
    requires i < 8 * |bytes|
  {
    Bit(bytes[i / 8], i % 8)
  }

  /** The first `len` bits. */
  function BitsOf(bytes: seq<u8>, len: nat): (bits: seq<bool>)
    requires len <= 8 * |bytes|
    ensures |bits| == len
    ensures forall i :: 0 <= i < len ==> bits[i] == BitAt(bytes, i)
  {
    seq(len, i requires 0 <= i < len => BitAt(bytes, i))
  }

  /** No bit is set between the logical end and the end of its byte. */
  ghost predicate TrailingClear(bytes: seq<u8>, len: nat)
    requires len <= 8 * |bytes|
  {
    forall i :: len <= i < 8 * ByteCount(len) ==> !BitAt(bytes, i)
  }

  function AllSet(n: nat): (bits: seq<bool>)
    ensures |bits| == n && forall i :: 0 <= i < n ==> bits[i]
  {
    seq(n, i => true)
  }

  /** The stored bits `[offset, offset + n)`, clear past the last byte. */
  function StoredBits(bytes: seq<u8>, offset: nat, n: nat): (bits: seq<bool>)
    ensures |bits| == n
  {
    seq(n, i requires 0 <= i < n => offset + i < 8 * |bytes| && BitAt(bytes, offset + i))
  }

  /** The bits set in either of two sequences. */
  function EitherBits(a: seq<bool>, b: seq<bool>): (bits: seq<bool>)
    requires |a| == |b|
    ensures |bits| == |a|
  {
    seq(|a|, i requires 0 <= i < |a| => a[i] || b[i])
  }

  function SetCount(bits: seq<bool>): nat {
    if bits == [] then 0 else SetCount(bits[..|bits| - 1]) + (if bits[|bits| - 1] then 1 else 0)
  }

  /** The number of cleared bits. */
  function Cleared(bits: seq<bool>): nat {
    if bits == [] then 0 else Cleared(bits[..|bits| - 1]) + (if bits[|bits| - 1] then 0 else 1)
  }

  lemma {:induction false} SetAndCleared(bits: seq<bool>)
    ensures SetCount(bits) + Cleared(bits) == |bits|
  {
    if bits != [] { SetAndCleared(bits[..|bits| - 1]); }
  }

  /** `u8::count_ones`: the set bits among the low `n`. */
  function Ones(b: u8, n: nat): nat {
    if n == 0 then 0 else Ones(b, n - 1) + (if Bit(b, n - 1) then 1 else 0)
  }

  lemma BitOne(k: nat)
    ensures Bit(1, k) == (k == 0)
  {
    if k > 0 { BitZero(k - 1); }
  }

  lemma BitByteFull(k: nat)
    ensures Bit(0xFF, k) == (k < 8)
  {
    Pow2Values();
    BitLowMask(8, k);
  }

  lemma ByteAbove(b: u8, k: nat)
    requires 8 <= k
    ensures !Bit(b, k)
  {
    Pow2Values();
    BitAboveWidth(b, 8, k);
  }

  /** `1u8 << i` */
  function BitMask8(i: nat): (r: u8)
    requires i < 8
    ensures forall k: nat :: Bit(r, k) == (k == i)
  {
    assert forall k: nat :: Bit(1, k) == (k == 0) by {
      forall k: nat ensures Bit(1, k) == (k == 0) { BitOne(k); }
    }
    Shl8(1, i)
  }

  /** One bit of the packed bytes written, as `set_unchecked` does. */
  function WithBit(bytes: seq<u8>, i: nat, value: bool): (r: seq<u8>)
    requires i < 8 * |bytes|
    ensures |r| == |bytes|
    ensures forall k :: 0 <= k < 8 * |bytes| ==> BitAt(r, k) == if k == i then value else BitAt(bytes, k)
  {
    var byte := bytes[i / 8];
    var bit := BitMask8(i % 8);
    bytes[i / 8 := if value then Or8(byte, bit) else And8(byte, Not8(bit))]
  }

  /** The bytes with the unused bits above `len` cleared in the last logical byte. */
  function TrailingMasked(bytes: seq<u8>, len: nat): (r: seq<u8>)
    requires len <= 8 * |bytes|
    ensures |r| == |bytes|
    ensures forall k :: 0 <= k < 8 * |bytes| ==>
              BitAt(r, k) == (BitAt(bytes, k) && !(len <= k < 8 * ByteCount(len)))
    ensures TrailingClear(r, len)
  {
    if len % 8 == 0 then bytes
    else
      var last := ByteCount(len) - 1;
      var r := bytes[last := And8(bytes[last], LowMask8(len % 8))];
      assert forall k :: 0 <= k < 8 * |bytes| ==>
          BitAt(r, k) == (BitAt(bytes, k) && !(len <= k < 8 * ByteCount(len))) by {
        forall k | 0 <= k < 8 * |bytes|
          ensures BitAt(r, k) == (BitAt(bytes, k) && !(len <= k < 8 * ByteCount(len)))
        {
          LastByteMasked(bytes, len, k);
        }
      }
      r
  }

  lemma LastByteMasked(bytes: seq<u8>, len: nat, k: nat)
    requires len <= 8 * |bytes| && len % 8 != 0 && k < 8 * |bytes|
    ensures var last := ByteCount(len) - 1;
            BitAt(bytes[last := And8(bytes[last], LowMask8(len % 8))], k) ==
            (BitAt(bytes, k) && !(len <= k < 8 * ByteCount(len)))
  {
    var last := len / 8;
    assert ByteCount(len) - 1 == last;
    if k / 8 == last {
      assert k < len <==> k % 8 < len % 8;
    }
  }

  /** The byte found `sh` bits above the start of `lo`, the rest coming from `hi`. */
  function FunnelByte(lo: u8, hi: u8, sh: nat): (r: u8)
    requires sh < 8
    ensures forall k: nat :: k < 8 ==> Bit(r, k) == if sh + k < 8 then Bit(lo, sh + k) else Bit(hi, sh + k - 8)
  {
    if sh == 0 then lo
    else
      assert forall k: nat :: 8 <= k ==> !Bit(lo, k) by {
        forall k: nat | 8 <= k ensures !Bit(lo, k) { ByteAbove(lo, k); }
      }
      Or8(Shr8(lo, sh), Shl8(hi, 8 - sh))
  }

  /** `Vec::resize` */
  function ResizeBytes(bytes: seq<u8>, n: nat, fill: u8): (r: seq<u8>)
    ensures |r| == n
    ensures forall j :: 0 <= j < n ==> r[j] == if j < |bytes| then bytes[j] else fill
  {
    if n <= |bytes| then bytes[..n]
    else
      var extra := seq(n - |bytes|, i => fill);
      assert forall j :: 0 <= j < |extra| ==> extra[j] == fill;
      bytes + extra
  }

  // ----- the loops over packed bytes -----

  /** The funnelled byte with the low `keep` bits of `old` put back. */
  function SplicedByte(was: u8, lo: u8, hi: u8, sh: nat, keep: nat): (b: u8)
    requires sh < 8 && keep < 8
    ensures forall k: nat :: k < 8 ==>
              Bit(b, k) == if k < keep then Bit(was, k) else if sh + k < 8 then Bit(lo, sh + k) else Bit(hi, sh + k - 8)
  {
    var shifted := FunnelByte(lo, hi, sh);
    if keep != 0 then Or8(And8(was, LowMask8(keep)), And8(shifted, Not8(LowMask8(keep)))) else shifted
  }

  /** Byte `j` of `source` after the bits from `start + span` on have moved down to `start`. */
  function ShiftedByte(source: seq<u8>, j: nat, start: nat, span: nat): (b: u8)
    requires start / 8 <= j && j + span / 8 < |source|
  {
    var q := span / 8;
    var hi := if j + q + 1 < |source| then source[j + q + 1] else 0;
    SplicedByte(source[j], source[j + q], hi, span % 8, if j == start / 8 then start % 8 else 0)
  }

  lemma ShiftedByteBit(source: seq<u8>, j: nat, start: nat, span: nat, r: nat)
    requires start / 8 <= j && r < 8 && 8 * j + r + span < 8 * |source|
    ensures j + span / 8 < |source|
    ensures Bit(ShiftedByte(source, j, start, span), r) ==
            BitAt(source, if 8 * j + r < start then 8 * j + r else 8 * j + r + span)
  {
    var q, sh := span / 8, span % 8;
    var p := 8 * j + r + span;
    if sh + r < 8 {
      assert p / 8 == j + q && p % 8 == sh + r;
    } else {
      assert p / 8 == j + q + 1 && p % 8 == sh + r - 8;
    }
    assert (8 * j + r) / 8 == j && (8 * j + r) % 8 == r;
  }

  /** Moves the bits from `start + span` on down to `start`, one byte at a time and in place: the
      writes trail the reads. */
  method ShiftDown(source: seq<u8>, start: nat, span: nat, newLen: nat) returns (bytes: seq<u8>)
    requires start < newLen && newLen + span <= 8 * |source|
    ensures |bytes| == |source|
    ensures forall k :: 0 <= k < newLen ==> BitAt(bytes, k) == BitAt(source, if k < start then k else k + span)
  {
    bytes := source;
    var q, sh, keep := span / 8, span % 8, start % 8;
    var first, last := start / 8, (newLen - 1) / 8;
    var i := first;
    while i <= last
      invariant first <= i <= last + 1 && |bytes| == |source| && last + q < |source|
      invariant bytes[..first] == source[..first] && bytes[i..] == source[i..]
      invariant forall j :: first <= j < i ==> bytes[j] == ShiftedByte(source, j, start, span)
    {
      var lo := bytes[i + q];
      var hi := if i + q + 1 < |bytes| then bytes[i + q + 1] else 0;
      assert bytes[i..][0] == source[i] && lo == bytes[i..][q];
      assert hi == if i + q + 1 < |bytes| then bytes[i..][q + 1] else 0;
      bytes := bytes[i := SplicedByte(bytes[i], lo, hi, sh, if i == first then keep else 0)];
      i := i + 1;
    }
    ShiftedBits(source, bytes, start, span, newLen);
  }

  lemma ShiftedBits(source: seq<u8>, bytes: seq<u8>, start: nat, span: nat, newLen: nat)
    requires start < newLen && newLen + span <= 8 * |source| && |bytes| == |source|
    requires forall j :: 0 <= j < start / 8 ==> bytes[j] == source[j]
    requires forall j :: start / 8 <= j <= (newLen - 1) / 8 && j + span / 8 < |source| ==>
               bytes[j] == ShiftedByte(source, j, start, span)
    ensures forall k :: 0 <= k < newLen ==> BitAt(bytes, k) == BitAt(source, if k < start then k else k + span)
  {
    forall k | 0 <= k < newLen
      ensures BitAt(bytes, k) == BitAt(source, if k < start then k else k + span)
    {
      if start / 8 <= k / 8 { ShiftedByteBit(source, k / 8, start, span, k % 8); }
    }
  }

  /** The `n` bytes found `sh` bits above the start of `source`; past its end, zeros come in. */
  function FunnelAt(source: seq<u8>, j: nat, sh: nat): (b: u8)
    requires j < |source| && sh < 8
  {
    FunnelByte(source[j], if j + 1 < |source| then source[j + 1] else 0, sh)
  }

  lemma FunnelAtBit(source: seq<u8>, j: nat, sh: nat, k: nat)
    requires j < |source| && sh < 8 && k < 8 && 8 * j + sh + k < 8 * |source|
    ensures Bit(FunnelAt(source, j, sh), k) == BitAt(source, 8 * j + sh + k)
  {
    var p := 8 * j + sh + k;
    if sh + k < 8 {
      assert p / 8 == j && p % 8 == sh + k;
    } else {
      assert p / 8 == j + 1 && p % 8 == sh + k - 8;
    }
  }

  lemma WordAtBit(source: seq<u8>, i: nat, k: nat)
    requires i + 8 <= |source| && k < 64
    ensures Bit(WordAt(source[i..i + 8]), k) == BitAt(source, 8 * i + k)
  {
    BitFromLe(source[i..i + 8], k);
    assert (8 * i + k) / 8 == i + k / 8 && (8 * i + k) % 8 == k % 8;
  }

  /** The word found `sh` bits above `lo`, its top bits coming from the byte `hi`. */
  function FunnelWord(lo: u64, hi: u8, sh: nat): (w: u64)
    requires 0 < sh < 8
    ensures forall k: nat :: k < 64 ==> Bit(w, k) == if sh + k < 64 then Bit(lo, sh + k) else Bit(hi, sh + k - 64)
  {
    assert forall k: nat :: 64 <= k ==> !Bit(lo, k) by {
      forall k: nat | 64 <= k ensures !Bit(lo, k) { Pow2Values(); BitAboveWidth(lo, 64, k); }
    }
    Or64(Shr64(lo, sh), Shl64(hi, 64 - sh))
  }

  /** The 64 bits of `w` are those found at bit `at` of `source`. */
  ghost predicate WordReads(w: u64, source: seq<u8>, at: nat)
    requires at + 64 <= 8 * |source|
  {
    forall p: nat :: p < 64 ==> Bit(w, p) == BitAt(source, at + p)
  }

  /** Such a word holds the same eight bytes that eight byte steps read. */
  lemma WordReadsBytes(w: u64, source: seq<u8>, i: nat, sh: nat, t: nat)
    requires sh < 8 && t < 8 && 8 * i + sh + 64 <= 8 * |source|
    requires WordReads(w, source, 8 * i + sh)
    ensures ToLe(w, 8)[t] == FunnelAt(source, i + t, sh)
  {
    var a, b := ToLe(w, 8)[t], FunnelAt(source, i + t, sh);
    forall k: nat | k < 8 ensures Bit(a, k) == Bit(b, k) {
      WordReadsBit(w, source, i, sh, t, k);
    }
    BytesEqual(a, b);
  }

  lemma WordReadsBit(w: u64, source: seq<u8>, i: nat, sh: nat, t: nat, k: nat)
    requires sh < 8 && t < 8 && k < 8 && 8 * i + sh + 64 <= 8 * |source|
    requires WordReads(w, source, 8 * i + sh)
    ensures Bit(ToLe(w, 8)[t], k) == Bit(FunnelAt(source, i + t, sh), k)
  {
    var p := 8 * t + k;
    calc {
      Bit(ToLe(w, 8)[t], k);
      { BitOfByte(w, 8, t, k); }
      Bit(w, p);
      BitAt(source, 8 * i + sh + p);
      { assert 8 * i + sh + p == 8 * (i + t) + sh + k; FunnelAtBit(source, i + t, sh, k); }
      Bit(FunnelAt(source, i + t, sh), k);
    }
  }

  /** One step of the word loop of `SliceBytes` reads the right 64 bits. */
  lemma FunnelWordReads(source: seq<u8>, i: nat, sh: nat)
    requires 0 < sh < 8 && i + 8 < |source|
    ensures WordReads(FunnelWord(WordAt(source[i..i + 8]), source[i + 8], sh), source, 8 * i + sh)
  {
    var w := FunnelWord(WordAt(source[i..i + 8]), source[i + 8], sh);
    forall p: nat | p < 64 ensures Bit(w, p) == BitAt(source, 8 * i + sh + p) {
      FunnelWordSource(source, i, sh, p);
    }
  }

  lemma FunnelWordSource(source: seq<u8>, i: nat, sh: nat, p: nat)
    requires 0 < sh < 8 && p < 64 && i + 8 < |source|
    ensures Bit(FunnelWord(WordAt(source[i..i + 8]), source[i + 8], sh), p) == BitAt(source, 8 * i + sh + p)
  {
    if sh + p < 64 {
      WordAtBit(source, i, sh + p);
    } else {
      assert (8 * i + sh + p) / 8 == i + 8 && (8 * i + sh + p) % 8 == sh + p - 64;
    }
  }

  /** Copies the `n` bytes that start `sh` bits into `source`: a word at a time, then bytes. */
  method SliceBytes(source: seq<u8>, sh: nat, n: nat) returns (bytes: seq<u8>)
    requires 0 < sh < 8 && n <= |source| <= n + 1
    ensures |bytes| == n
    ensures forall j :: 0 <= j < n ==> bytes[j] == FunnelAt(source, j, sh)
  {
    bytes := seq(n, i => 0);
    var i := 0;
    while i + 8 < |source|
      invariant 0 <= i <= n && |bytes| == n
      invariant forall j :: 0 <= j < i ==> bytes[j] == FunnelAt(source, j, sh)
    {
      var word := FunnelWord(WordAt(source[i..i + 8]), source[i + 8], sh);
      FunnelWordReads(source, i, sh);
      forall t: nat | t < 8 ensures ToLe(word, 8)[t] == FunnelAt(source, i + t, sh) {
        WordReadsBytes(word, source, i, sh, t);
      }
      bytes := bytes[..i] + ToLe(word, 8) + bytes[i + 8..];
      i := i + 8;
    }
    while i < n
      invariant 0 <= i <= n && |bytes| == n
      invariant forall j :: 0 <= j < i ==> bytes[j] == FunnelAt(source, j, sh)
    {
      bytes := bytes[i := FunnelByte(source[i], if i + 1 < |source| then source[i + 1] else 0, sh)];
      i := i + 1;
    }
  }

  /** A source word shifted up by the destination's bit position, over the bits spilled before it. */
  function SpillWord(word: u64, spill: u64, shift: nat): (w: u64)
    ensures forall k: nat :: Bit(w, k) == (Bit(spill, k) || (shift <= k < 64 && Bit(word, k - shift)))
  {
    Or64(Shl64(word, shift), spill)
  }

  lemma SpillBit(prev: u8, shift: nat, k: nat)
    requires 0 < shift < 8
    ensures Bit(Shr8(prev, 8 - shift), k) == (k < shift && Bit(prev, 8 - shift + k))
  {
    if k >= shift { ByteAbove(prev, 8 - shift + k); }
  }

  /** Bit `k` of the word written at `i` comes from the stream `s`, `8 - shift` bits further on. */
  lemma SpillWordSource(s: seq<u8>, i: nat, shift: nat, k: nat)
    requires 0 < shift < 8 && i + 9 <= |s| && k < 64
    ensures Bit(SpillWord(WordAt(s[i + 1..i + 9]), Shr8(s[i], 8 - shift), shift), k) ==
            BitAt(s, 8 * i + (8 - shift) + k)
  {
    SpillBit(s[i], shift, k);
    if k < shift {
      assert (8 * i + (8 - shift) + k) / 8 == i && (8 * i + (8 - shift) + k) % 8 == 8 - shift + k;
    } else {
      WordAtBit(s, i + 1, k - shift);
    }
  }

  lemma SpillWordReads(s: seq<u8>, i: nat, shift: nat)
    requires 0 < shift < 8 && i + 9 <= |s|
    ensures WordReads(SpillWord(WordAt(s[i + 1..i + 9]), Shr8(s[i], 8 - shift), shift), s, 8 * i + (8 - shift))
  {
    var w := SpillWord(WordAt(s[i + 1..i + 9]), Shr8(s[i], 8 - shift), shift);
    forall k: nat | k < 64 ensures Bit(w, k) == BitAt(s, 8 * i + (8 - shift) + k) {
      SpillWordSource(s, i, shift, k);
    }
  }

  /** The bits shifted out of the top of a word are those shifted out of its last byte. */
  lemma SpillNext(s: seq<u8>, i: nat, shift: nat)
    requires 0 < shift < 8 && i + 9 <= |s|
    ensures Shr64(WordAt(s[i + 1..i + 9]), 64 - shift) == Shr8(s[i + 8], 8 - shift)
  {
    var word := WordAt(s[i + 1..i + 9]);
    var a, b := Shr64(word, 64 - shift), Shr8(s[i + 8], 8 - shift);
    forall k: nat | k < 64 ensures Bit(a, k) == Bit(b, k) {
      SpillBit(s[i + 8], shift, k);
      Pow2Values();
      if k < shift {
        WordAtBit(s, i + 1, 64 - shift + k);
        assert (8 * (i + 1) + (64 - shift + k)) / 8 == i + 8;
      } else {
        BitAboveWidth(word, 64, 64 - shift + k);
      }
    }
    Pow2Values();
    WordsEqual(a, b, 64);
  }

  /** One step of the word loop of `SpillBytes`. */
  lemma SpillStep(s: seq<u8>, i: nat, shift: nat, spill: u64, word: u64, out: seq<u8>)
    requires 0 < shift < 8 && i + 9 <= |s|
    requires spill == Shr8(s[i], 8 - shift) && word == WordAt(s[i + 1..i + 9])
    requires out == ToLe(SpillWord(word, spill, shift), 8)
    ensures forall t :: 0 <= t < 8 ==> out[t] == FunnelAt(s, i + t, 8 - shift)
    ensures Shr64(word, 64 - shift) == Shr8(s[i + 8], 8 - shift)
  {
    SpillWordReads(s, i, shift);
    forall t | 0 <= t < 8 ensures out[t] == FunnelAt(s, i + t, 8 - shift) {
      WordReadsBytes(SpillWord(word, spill, shift), s, i, 8 - shift, t);
    }
    SpillNext(s, i, shift);
  }

  /** One source byte shifted up over the spill, kept to eight bits. */
  function SpillByte(byte: u8, spill: u64, shift: nat): (b: u8)
    ensures b == SpillWord(byte, spill, shift) % 0x100
  {
    SpillWord(byte, spill, shift) % 0x100
  }

  lemma SpillByteIsFunnel(prev: u8, byte: u8, shift: nat)
    requires 0 < shift < 8
    ensures SpillByte(byte, Shr8(prev, 8 - shift), shift) == FunnelByte(prev, byte, 8 - shift)
    ensures Shr64(byte, 8 - shift) == Shr8(byte, 8 - shift)
  {
    var b, f := SpillByte(byte, Shr8(prev, 8 - shift), shift), FunnelByte(prev, byte, 8 - shift);
    forall k: nat | k < 8 ensures Bit(b, k) == Bit(f, k) {
      BitLowByte(SpillWord(byte, Shr8(prev, 8 - shift), shift), k);
      SpillBit(prev, shift, k);
    }
    BytesEqual(b, f);
  }

  /** The bytes before the front are written and those after it are untouched. */
  ghost predicate SpilledTo(bytes: seq<u8>, target: seq<u8>, at: nat, i: nat, s: seq<u8>, shift: nat)
    requires 0 < shift < 8 && i < |s|
  {
    |bytes| == |target|
    && (forall j :: 0 <= j < |target| && (j < at || at + i <= j) ==> bytes[j] == target[j])
    && (forall j :: 0 <= j < |target| && at <= j < at + i ==> bytes[j] == FunnelAt(s, j - at, 8 - shift))
  }

  /** Writes the next bytes of the spill and moves the front on. */
  method PutSpill(bytes: seq<u8>, ghost target: seq<u8>, at: nat, i: nat, ghost s: seq<u8>, ghost shift: nat,
      out: seq<u8>)
    returns (after: seq<u8>)
    requires 0 < shift < 8 && i + |out| < |s| && SpilledTo(bytes, target, at, i, s, shift)
    requires at + i + |out| <= |target|
    requires forall t :: 0 <= t < |out| ==> out[t] == FunnelAt(s, i + t, 8 - shift)
    ensures SpilledTo(after, target, at, i + |out|, s, shift)
  {
    after := bytes[..at + i] + out + bytes[at + i + |out|..];
    forall j | at <= j < at + i + |out| ensures after[j] == FunnelAt(s, j - at, 8 - shift) {
      if j >= at + i { assert after[j] == out[j - at - i]; }
    }
  }

  /** Whole words first. */
  method SpillWords(target: seq<u8>, at: nat, source: seq<u8>, shift: nat, ghost s: seq<u8>)
    returns (bytes: seq<u8>, i: nat, spill: u64)
    requires 0 < shift < 8 && at + |source| <= |target| && at < |target|
    requires s == [Shl8(target[at], 8 - shift)] + source
    ensures i <= |source| && spill == Shr8(s[i], 8 - shift) && SpilledTo(bytes, target, at, i, s, shift)
  {
    bytes := target;
    spill := And8(target[at], LowMask8(shift));
    FirstSpill(target[at], shift);
    i := 0;
    while i + 8 <= |source|
      invariant 0 <= i <= |source| && spill == Shr8(s[i], 8 - shift)
      invariant SpilledTo(bytes, target, at, i, s, shift)
    {
      var word := WordAt(source[i..i + 8]);
      TailSlice(s, source, i);
      var out := ToLe(SpillWord(word, spill, shift), 8);
      SpillStep(s, i, shift, spill, word, out);
      bytes := PutSpill(bytes, target, at, i, s, shift, out);
      spill := Shr64(word, 64 - shift);
      i := i + 8;
    }
  }

  /** Writes `source` into `target` from `shift` bits into byte `at`: a word at a time, then bytes,
      carrying the bits shifted out of each. `s` is the first target byte's kept bits, then `source`. */
  method SpillBytes(target: seq<u8>, at: nat, source: seq<u8>, shift: nat, ghost s: seq<u8>) returns (bytes: seq<u8>)
    requires 0 < shift < 8 && at + |source| <= |target| && at < |target|
    requires s == [Shl8(target[at], 8 - shift)] + source
    ensures |bytes| == |target|
    ensures forall j :: 0 <= j < |target| ==>
              bytes[j] == if at <= j <= at + |source| then FunnelAt(s, j - at, 8 - shift) else target[j]
  {
    var i: nat, spill: u64;
    bytes, i, spill := SpillWords(target, at, source, shift, s);
    while i < |source|
      invariant i <= |source| && spill == Shr8(s[i], 8 - shift)
      invariant SpilledTo(bytes, target, at, i, s, shift)
    {
      SpillByteIsFunnel(s[i], source[i], shift);
      bytes := PutSpill(bytes, target, at, i, s, shift, [SpillByte(source[i], spill, shift)]);
      spill := Shr64(source[i], 8 - shift);
      i := i + 1;
    }
    if at + i < |bytes| {
      LastSpill(s[i], shift);
      bytes := bytes[at + i := spill];
    }
  }

  lemma TailSlice(s: seq<u8>, source: seq<u8>, i: nat)
    requires |s| == 1 + |source| && s[1..] == source && i + 8 <= |source|
    ensures source[i..i + 8] == s[i + 1..i + 9]
  {
    assert s[1..][i..i + 8] == s[i + 1..i + 9];
  }

  lemma FirstSpill(b: u8, shift: nat)
    requires 0 < shift < 8
    ensures And8(b, LowMask8(shift)) == Shr8(Shl8(b, 8 - shift), 8 - shift)
  {
    var x, y := And8(b, LowMask8(shift)), Shr8(Shl8(b, 8 - shift), 8 - shift);
    forall k: nat | k < 8 ensures Bit(x, k) == Bit(y, k) {}
    BytesEqual(x, y);
  }

  lemma LastSpill(b: u8, shift: nat)
    requires 0 < shift < 8
    ensures Shr8(b, 8 - shift) == FunnelByte(b, 0, 8 - shift)
  {
    var x, y := Shr8(b, 8 - shift), FunnelByte(b, 0, 8 - shift);
    forall k: nat | k < 8 ensures Bit(x, k) == Bit(y, k) {
      SpillBit(b, shift, k);
      BitZero(if k >= shift then k - shift else 0);
    }
    BytesEqual(x, y);
  }

  // ----- resizing -----

  /** Sets the bits in `[from, to)` one at a time. */
  method SetRun(source: seq<u8>, from: nat, to: nat) returns (bytes: seq<u8>)
    requires from <= to <= 8 * |source|
    ensures |bytes| == |source|
    ensures forall k :: 0 <= k < 8 * |bytes| ==> BitAt(bytes, k) == (from <= k < to || BitAt(source, k))
  {
    bytes := source;
    for i := from to to
      invariant |bytes| == |source|
      invariant forall k :: 0 <= k < 8 * |bytes| ==> BitAt(bytes, k) == (from <= k < i || BitAt(source, k))
    {
      bytes := WithBit(bytes, i, true);
    }
  }

  lemma FilledBits(bytes: seq<u8>, n: nat, value: bool)
    ensures var r := ResizeBytes(bytes, n, if value then 0xFF else 0);
            forall k :: 0 <= k < 8 * n ==> BitAt(r, k) == FilledBit(bytes, k, value)
  {
    var r := ResizeBytes(bytes, n, if value then 0xFF else 0);
    forall k | 0 <= k < 8 * n ensures BitAt(r, k) == FilledBit(bytes, k, value) {
      BitByteFull(k % 8);
      BitZero(k % 8);
    }
  }

  predicate FilledBit(bytes: seq<u8>, k: nat, value: bool) {
    if k < 8 * |bytes| then BitAt(bytes, k) else value
  }

  /** The last lemma of `resize`: `run` is the stretch of old padding that `resize` sets by hand. */
  lemma ResizedBytesBits(before: seq<u8>, len: nat, n: nat, value: bool, run: nat, bytes: seq<u8>)
    requires len <= 8 * |before| && TrailingClear(before, len) && |bytes| == ByteCount(n)
    requires run == if value && n > len && len % 8 != 0
                    then (if n < 8 * ByteCount(len) then n else 8 * ByteCount(len)) else len
    requires forall k :: 0 <= k < 8 * |bytes| ==>
               BitAt(bytes, k) == (len <= k < run || FilledBit(before, k, value))
    ensures BitsOf(bytes, n) == BitsAfterResize(before, len, n, value)
  {
    var a, b := BitsOf(bytes, n), BitsAfterResize(before, len, n, value);
    forall k | 0 <= k < n ensures a[k] == b[k] {
      ResizedBit(before, len, n, value, run, k);
      assert a[k] == BitAt(bytes, k);
    }
  }

  lemma ResizedBit(before: seq<u8>, len: nat, n: nat, value: bool, run: nat, k: nat)
    requires len <= 8 * |before| && TrailingClear(before, len) && k < n
    requires run == if value && n > len && len % 8 != 0
                    then (if n < 8 * ByteCount(len) then n else 8 * ByteCount(len)) else len
    ensures (len <= k < run || FilledBit(before, k, value)) == BitsAfterResize(before, len, n, value)[k]
  {}

  /** What `resize` promises: old bits kept, new bits equal to `value`. */
  function ResizedBits(bits: seq<bool>, n: nat, value: bool): (r: seq<bool>)
    ensures |r| == n
  {
    if n <= |bits| then bits[..n] else bits + seq(n - |bits|, i => value)
  }

  /** What `resize` does: a new bit in a byte the buffer already held past the mask keeps its value. */
  function BitsAfterResize(bytes: seq<u8>, len: nat, n: nat, value: bool): (r: seq<bool>)
    requires len <= 8 * |bytes|
    ensures |r| == n
  {
    seq(n, k requires 0 <= k < n =>
      if k < len || 8 * ByteCount(len) <= k < 8 * |bytes| then BitAt(bytes, k) else value)
  }

  /** Every bit the buffer holds past the mask's last byte, as far as `n`, already equals `value`. */
  ghost predicate SpareBitsAre(bytes: seq<u8>, len: nat, n: nat, value: bool) {
    forall k :: 8 * ByteCount(len) <= k < 8 * |bytes| && k < n ==> BitAt(bytes, k) == value
  }

  lemma ResizeKeepsPromiseWhen(bytes: seq<u8>, len: nat, n: nat, value: bool)
    requires len <= 8 * |bytes|
    ensures BitsAfterResize(bytes, len, n, value) == ResizedBits(BitsOf(bytes, len), n, value)
       <==> SpareBitsAre(bytes, len, n, value)
  {
    var done, promised := BitsAfterResize(bytes, len, n, value), ResizedBits(BitsOf(bytes, len), n, value);
    assert forall k :: 0 <= k < n ==> promised[k] == if k < len then BitAt(bytes, k) else value;
    if done == promised {
      forall k | 8 * ByteCount(len) <= k < 8 * |bytes| && k < n ensures BitAt(bytes, k) == value {
        assert done[k] == promised[k];
      }
    }
  }

  /** Three bits over a two-byte buffer, resized to sixteen set bits: the second byte stays clear. */
  lemma ResizeLeavesSpareByte()
    ensures !BitsAfterResize([7, 0], 3, 16, true)[8]
    ensures ResizedBits(BitsOf([7, 0], 3), 16, true)[8]
  {
    var bytes: seq<u8> := [7, 0];
    assert !BitAt(bytes, 8);
    assert |BitsOf(bytes, 3)| == 3;
  }

  // ----- what the byte edits mean for the bits -----

  lemma DeletedBits(before: seq<u8>, len: nat, start: nat, end: nat, bytes: seq<u8>)
    requires start <= end <= len <= 8 * |before| && len - (end - start) <= 8 * |bytes|
    requires forall k :: 0 <= k < len - (end - start) ==>
               BitAt(bytes, k) == BitAt(before, if k < start then k else k + (end - start))
    ensures BitsOf(bytes, len - (end - start)) == BitsOf(before, len)[..start] + BitsOf(before, len)[end..]
  {
    var a, b := BitsOf(bytes, len - (end - start)), BitsOf(before, len)[..start] + BitsOf(before, len)[end..];
    forall k | 0 <= k < |a| ensures a[k] == b[k] {
      assert a[k] == BitAt(bytes, k);
    }
  }

  lemma DeletedBytesBits(before: seq<u8>, len: nat, start: nat, end: nat)
    requires start <= end <= len <= 8 * |before| && start % 8 == 0 && end % 8 == 0
    ensures len - (end - start) <= 8 * |before[..start / 8] + before[end / 8..]|
    ensures BitsOf(before[..start / 8] + before[end / 8..], len - (end - start))
         == BitsOf(before, len)[..start] + BitsOf(before, len)[end..]
  {
    var bytes := before[..start / 8] + before[end / 8..];
    forall k | 0 <= k < len - (end - start)
      ensures BitAt(bytes, k) == BitAt(before, if k < start then k else k + (end - start))
    {
      assert k >= start ==> (k + (end - start)) / 8 == k / 8 + (end / 8 - start / 8);
    }
    DeletedBits(before, len, start, end, bytes);
  }

  /** Keeping the leading bytes keeps the leading bits. */
  lemma KeptBits(before: seq<u8>, len: nat, start: nat, end: nat, shifted: seq<u8>, kept: seq<u8>)
    requires start <= end <= len <= 8 * |before| && len - (end - start) <= 8 * |kept| && |kept| <= |shifted|
    requires kept == shifted[..|kept|]
    requires forall k :: 0 <= k < len - (end - start) ==>
               BitAt(shifted, k) == BitAt(before, if k < start then k else k + (end - start))
    ensures BitsOf(kept, len - (end - start)) == BitsOf(before, len)[..start] + BitsOf(before, len)[end..]
  {
    forall k | 0 <= k < len - (end - start) ensures BitAt(kept, k) == BitAt(shifted, k) {}
    DeletedBits(before, len, start, end, kept);
  }

  /** A byte read `sh` bits into a window of whole bytes. */
  lemma FunnelledBit(window: seq<u8>, sh: nat, k: nat, byte: u8)
    requires sh < 8 && sh + k < 8 * |window|
    requires byte == if sh == 0 then window[k / 8] else FunnelAt(window, k / 8, sh)
    ensures Bit(byte, k % 8) == BitAt(window, sh + k)
  {
    if sh != 0 {
      FunnelAtBit(window, k / 8, sh, k % 8);
      assert 8 * (k / 8) + sh + k % 8 == sh + k;
    }
  }

  lemma WindowBit(source: seq<u8>, offset: nat, to: nat, k: nat)
    requires offset / 8 <= to <= |source| && offset + k < 8 * to
    ensures BitAt(source[offset / 8..to], offset % 8 + k) == BitAt(source, offset + k)
  {
    assert (offset + k) / 8 == offset / 8 + (offset % 8 + k) / 8;
    assert (offset + k) % 8 == (offset % 8 + k) % 8;
  }

  /** Bytes funnelled out of a window hold the bits from `offset` on. */
  lemma SlicedBits(source: seq<u8>, len: nat, offset: nat, n: nat, to: nat, bytes: seq<u8>)
    requires offset + n <= len <= 8 * |source| && offset / 8 <= to <= |source| && offset + n <= 8 * to
    requires ByteCount(n) <= |bytes|
    requires var window := source[offset / 8..to];
             forall j :: 0 <= j < ByteCount(n) ==>
               j < |window| && bytes[j] == if offset % 8 == 0 then window[j] else FunnelAt(window, j, offset % 8)
    ensures BitsOf(bytes, n) == BitsOf(source, len)[offset..offset + n]
  {
    var a, b := BitsOf(bytes, n), BitsOf(source, len)[offset..offset + n];
    forall k | 0 <= k < n ensures a[k] == b[k] {
      SlicedBit(source, offset, to, k, bytes[k / 8]);
    }
  }

  lemma SlicedBit(source: seq<u8>, offset: nat, to: nat, k: nat, byte: u8)
    requires offset / 8 <= to <= |source| && offset + k < 8 * to
    requires var window := source[offset / 8..to];
             k / 8 < |window| && byte == if offset % 8 == 0 then window[k / 8] else FunnelAt(window, k / 8, offset % 8)
    ensures Bit(byte, k % 8) == BitAt(source, offset + k)
  {
    WindowBit(source, offset, to, k);
    FunnelledBit(source[offset / 8..to], offset % 8, k, byte);
  }

  /** The three ways of closing the gap: whole bytes out, the tail cut off, or the tail shifted down. */
  method DeleteBits(bits: Buffer<u8>, len: nat, start: nat, end: nat) returns (r: Buffer<u8>)
    requires bits.Valid() && start < end <= len <= 8 * bits.Len()
    ensures r.Valid() && len - (end - start) <= 8 * r.Len()
    ensures BitsOf(r.Elems(), len - (end - start))
         == BitsOf(bits.Elems(), len)[..start] + BitsOf(bits.Elems(), len)[end..]
    ensures bits.Len() == ByteCount(len) ==> r.Len() == ByteCount(len - (end - start))
  {
    var newLen := len - (end - start);
    var bytes := bits.Elems();
    if start % 8 == 0 && end % 8 == 0 {
      DeletedBytesBits(bytes, len, start, end);
      r := Owned(bytes[..start / 8] + bytes[end / 8..]);
    } else if end == len {
      r := bits.TruncateTo(ByteCount(newLen));
      KeptBits(bytes, len, start, end, bytes, r.Elems());
    } else {
      var shifted := ShiftDown(bytes, start, end - start, newLen);
      r := Owned(shifted).TruncateTo(ByteCount(newLen));
      KeptBits(bytes, len, start, end, shifted, r.Elems());
    }
  }

  // ----- appending packed bits -----

  /** Bit `p` of what `SpillBytes` writes, for a bit kept from the first target byte. */
  lemma SpilledKeptBit(b: u8, source: seq<u8>, shift: nat, r: nat)
    requires 0 < shift < 8 && r < shift
    ensures Bit(FunnelAt([Shl8(b, 8 - shift)] + source, 0, 8 - shift), r) == Bit(b, r)
  {
    var kept := Shl8(b, 8 - shift);
    var s := [kept] + source;
    assert s[0] == kept;
    assert Bit(FunnelByte(kept, if 1 < |s| then s[1] else 0, 8 - shift), r) == Bit(kept, 8 - shift + r);
  }

  /** The same for a bit that came from the source. */
  lemma SpilledSourceBit(b: u8, source: seq<u8>, shift: nat, k: nat)
    requires 0 < shift < 8 && k < 8 * |source|
    ensures Bit(FunnelAt([Shl8(b, 8 - shift)] + source, (shift + k) / 8, 8 - shift), (shift + k) % 8) ==
            BitAt(source, k)
  {
    var s := [Shl8(b, 8 - shift)] + source;
    FunnelAtBit(s, (shift + k) / 8, 8 - shift, (shift + k) % 8);
    assert 8 * ((shift + k) / 8) + (8 - shift) + (shift + k) % 8 == 8 + k;
    assert (8 + k) / 8 == 1 + k / 8 && (8 + k) % 8 == k % 8;
  }

  lemma SpilledBits(target: seq<u8>, start: nat, source: seq<u8>, n: nat, bytes: seq<u8>)
    requires start % 8 != 0 && |target| == |bytes| == ByteCount(start + n) && |source| == ByteCount(n) && n > 0
    requires forall j :: 0 <= j < |target| ==>
               bytes[j] == if start / 8 <= j <= start / 8 + |source|
                           then FunnelAt([Shl8(target[start / 8], 8 - start % 8)] + source,
                                          j - start / 8, 8 - start % 8)
                           else target[j]
    ensures forall k :: 0 <= k < start ==> BitAt(bytes, k) == BitAt(target, k)
    ensures forall k :: 0 <= k < n ==> BitAt(bytes, start + k) == BitAt(source, k)
  {
    var at, shift := start / 8, start % 8;
    forall k | 0 <= k < start ensures BitAt(bytes, k) == BitAt(target, k) {
      if k / 8 == at { SpilledKeptBit(target[at], source, shift, k % 8); }
    }
    forall k | 0 <= k < n ensures BitAt(bytes, start + k) == BitAt(source, k) {
      SpilledSourceBit(target[at], source, shift, k);
      assert (start + k) / 8 == at + (shift + k) / 8 && (start + k) % 8 == (shift + k) % 8;
    }
  }

  /** Copies whole bytes, then the tail under a mask, for a target that starts on a byte boundary. */
  method CopyAligned(target: seq<u8>, at: nat, source: seq<u8>, n: nat) returns (bytes: seq<u8>)
    requires ByteCount(n) <= |source| && at + ByteCount(n) == |target|
    ensures |bytes| == |target|
    ensures forall j :: 0 <= j < at ==> bytes[j] == target[j]
    ensures forall k :: 0 <= k < n ==> BitAt(bytes, 8 * at + k) == BitAt(source, k)
  {
    bytes := target;
    var full := n / 8;
    for i := 0 to full
      invariant |bytes| == |target|
      invariant forall j :: 0 <= j < at ==> bytes[j] == target[j]
      invariant forall j :: at <= j < at + i ==> bytes[j] == source[j - at]
    {
      bytes := bytes[at + i := source[i]];
    }
    var tail := n % 8;
    if tail != 0 {
      var mask := LowMask8(tail);
      bytes := bytes[at + full := Or8(And8(bytes[at + full], Not8(mask)), And8(source[full], mask))];
    }
    forall k | 0 <= k < n ensures BitAt(bytes, 8 * at + k) == BitAt(source, k) {
      assert (8 * at + k) / 8 == at + k / 8 && (8 * at + k) % 8 == k % 8;
    }
  }

  /** Writes the first `n` bits of `source` from bit `start` on. */
  method AppendBits(target: seq<u8>, start: nat, source: seq<u8>, n: nat) returns (bytes: seq<u8>)
    requires ByteCount(n) <= |source| && |target| == ByteCount(start + n)
    ensures |bytes| == |target|
    ensures forall k :: 0 <= k < start ==> BitAt(bytes, k) == BitAt(target, k)
    ensures forall k :: 0 <= k < n ==> BitAt(bytes, start + k) == BitAt(source, k)
  {
    if start % 8 == 0 {
      bytes := CopyAligned(target, start / 8, source, n);
    } else if n == 0 {
      bytes := target;
    } else {
      var used := source[..ByteCount(n)];
      ghost var s := [Shl8(target[start / 8], 8 - start % 8)] + used;
      bytes := SpillBytes(target, start / 8, used, start % 8, s);
      SpilledBits(target, start, used, n, bytes);
      forall k | 0 <= k < n ensures BitAt(used, k) == BitAt(source, k) {}
    }
  }

  /** Overwrites the bits `[start, start + n)` one at a time. */
  method CopyBits(target: seq<u8>, start: nat, source: seq<u8>, n: nat) returns (bytes: seq<u8>)
    requires n <= 8 * |source| && start + n <= 8 * |target|
    ensures |bytes| == |target|
    ensures forall k :: 0 <= k < 8 * |target| ==>
              BitAt(bytes, k) == if start <= k < start + n then BitAt(source, k - start) else BitAt(target, k)
  {
    bytes := target;
    for i := 0 to n
      invariant |bytes| == |target|
      invariant forall k :: 0 <= k < 8 * |target| ==>
                  BitAt(bytes, k) == if start <= k < start + i then BitAt(source, k - start) else BitAt(target, k)
    {
      bytes := WithBit(bytes, start + i, BitAt(source, i));
    }
  }

  /** Moves the bits `[index, origLen)` up by `gap`, working backwards so that none is lost. */
  method ShiftBitsUp(source: seq<u8>, index: nat, origLen: nat, gap: nat) returns (bytes: seq<u8>)
    requires index <= origLen && origLen + gap <= 8 * |source|
    ensures |bytes| == |source|
    ensures forall k :: 0 <= k < 8 * |source| ==>
              BitAt(bytes, k) == BitAt(source, if index + gap <= k < origLen + gap then k - gap else k)
  {
    bytes := source;
    for i := origLen downto index
      invariant |bytes| == |source|
      invariant forall k :: 0 <= k < 8 * |source| ==>
                  BitAt(bytes, k) == BitAt(source, if i + gap <= k < origLen + gap then k - gap else k)
    {
      bytes := WithBit(bytes, i + gap, BitAt(bytes, i));
    }
  }

  lemma AppendedBits(before: seq<bool>, bytes: seq<u8>, source: seq<u8>, n: nat)
    requires |before| + n <= 8 * |bytes| && n <= 8 * |source|
    requires forall k :: 0 <= k < |before| ==> BitAt(bytes, k) == before[k]
    requires forall k :: 0 <= k < n ==> BitAt(bytes, |before| + k) == BitAt(source, k)
    ensures BitsOf(bytes, |before| + n) == before + BitsOf(source, n)
  {
    var a, b := BitsOf(bytes, |before| + n), before + BitsOf(source, n);
    forall k | 0 <= k < |a| ensures a[k] == b[k] {
      if k >= |before| { assert BitAt(bytes, |before| + (k - |before|)) == BitAt(source, k - |before|); }
    }
  }

  lemma CopiedBits(before: seq<bool>, target: seq<u8>, source: seq<u8>, n: nat, bytes: seq<u8>)
    requires |before| + n <= 8 * |target| && n <= 8 * |source| && |bytes| == |target|
    requires forall k :: 0 <= k < |before| ==> BitAt(target, k) == before[k]
    requires forall k :: 0 <= k < 8 * |target| ==>
               BitAt(bytes, k) == if |before| <= k < |before| + n then BitAt(source, k - |before|) else BitAt(target, k)
    ensures BitsOf(bytes, |before| + n) == before + BitsOf(source, n)
  {
    forall k | 0 <= k < n ensures BitAt(bytes, |before| + k) == BitAt(source, k) {}
    AppendedBits(before, bytes, source, n);
  }

  lemma OneBitWritten(before: seq<u8>, len: nat, i: nat, value: bool, bytes: seq<u8>)
    requires i < len <= 8 * |before| && |bytes| == |before| && TrailingClear(before, len)
    requires forall k :: 0 <= k < 8 * |before| ==> BitAt(bytes, k) == if k == i then value else BitAt(before, k)
    ensures TrailingClear(bytes, len)
    ensures BitsOf(bytes, len) == BitsOf(before, len)[i := value]
  {}

  /** Bits written over others inside the mask. */
  lemma OverwrittenBits(before: seq<u8>, len: nat, index: nat, filler: seq<bool>, bytes: seq<u8>)
    requires index + |filler| <= len <= 8 * |before| && |bytes| == |before| && TrailingClear(before, len)
    requires forall k :: 0 <= k < 8 * |before| ==>
               BitAt(bytes, k) == if index <= k < index + |filler| then filler[k - index] else BitAt(before, k)
    ensures TrailingClear(bytes, len)
    ensures BitsOf(bytes, len) == BitsOf(before, len)[..index] + filler + BitsOf(before, len)[index + |filler|..]
  {}

  lemma RunBits(before: seq<u8>, len: nat, index: nat, n: nat, bytes: seq<u8>)
    requires index + n <= len <= 8 * |before| && |bytes| == |before| && TrailingClear(before, len)
    requires forall k :: 0 <= k < 8 * |before| ==> BitAt(bytes, k) == (index <= k < index + n || BitAt(before, k))
    ensures TrailingClear(bytes, len)
    ensures BitsOf(bytes, len) == BitsOf(before, len)[..index] + AllSet(n) + BitsOf(before, len)[index + n..]
  {
    OverwrittenBits(before, len, index, AllSet(n), bytes);
  }

  /** The set bits among the first `k` stored. */
  function SetUpTo(bytes: seq<u8>, k: nat): nat
    requires k <= 8 * |bytes|
  {
    if k == 0 then 0 else SetUpTo(bytes, k - 1) + (if BitAt(bytes, k - 1) then 1 else 0)
  }

  lemma {:induction false} SetUpToCounts(bytes: seq<u8>, k: nat)
    requires k <= 8 * |bytes|
    ensures SetUpTo(bytes, k) == SetCount(BitsOf(bytes, k))
  {
    if k > 0 {
      SetUpToCounts(bytes, k - 1);
      assert BitsOf(bytes, k)[..k - 1] == BitsOf(bytes, k - 1);
    }
  }

  /** The set bits of the first `n` bytes. */
  method CountBytes(bytes: seq<u8>, n: nat) returns (count: nat)
    requires n <= |bytes|
    ensures count == SetUpTo(bytes, 8 * n)
  {
    count := 0;
    for i := 0 to n
      invariant count == SetUpTo(bytes, 8 * i)
    {
      count := count + Ones(bytes[i], 8);
      OneMoreByte(bytes, i, 8, 8 * i);
    }
  }

  /** The low bits of byte `i`, counted after the bytes before it. */
  lemma {:induction false} OneMoreByte(bytes: seq<u8>, i: nat, n: nat, start: nat)
    requires i < |bytes| && n <= 8 && start == 8 * i
    ensures SetUpTo(bytes, start + n) == SetUpTo(bytes, start) + Ones(bytes[i], n)
    decreases n
  {
    if n > 0 {
      OneMoreByte(bytes, i, n - 1, start);
      InByte(i, n - 1, start + n - 1);
    }
  }

  lemma InByte(i: nat, r: nat, k: nat)
    requires r < 8 && k == 8 * i + r
    ensures k / 8 == i && k % 8 == r
  {}

  lemma {:induction false} OnesMasked(b: u8, rem: nat, n: nat)
    requires rem < 8 && n <= 8
    ensures Ones(And8(b, LowMask8(rem)), n) == Ones(b, if n < rem then n else rem)
    decreases n
  {
    if n > 0 { OnesMasked(b, rem, n - 1); }
  }

  lemma CountedBits(bytes: seq<u8>, len: nat, full: nat, rem: nat)
    requires len == 8 * full + rem <= 8 * |bytes| && rem < 8
    ensures SetCount(BitsOf(bytes, len)) == SetUpTo(bytes, 8 * full)
              + if rem == 0 then 0 else Ones(And8(bytes[full], LowMask8(rem)), 8)
  {
    SetUpToCounts(bytes, len);
    if rem != 0 {
      OneMoreByte(bytes, full, rem, 8 * full);
      OnesMasked(bytes[full], rem, 8);
    }
  }

  /** The bytes of `a` with those of `b` or-ed in, as far as both reach. */
  method OrBytes(a: seq<u8>, b: seq<u8>) returns (bytes: seq<u8>)
    ensures |bytes| == |a|
    ensures forall j :: 0 <= j < |a| ==> bytes[j] == if j < |b| then Or8(a[j], b[j]) else a[j]
  {
    bytes := a;
    var n := if |b| < |a| then |b| else |a|;
    for i := 0 to n
      invariant |bytes| == |a|
      invariant forall j :: 0 <= j < |a| ==> bytes[j] == if j < i then Or8(a[j], b[j]) else a[j]
    {
      bytes := bytes[i := Or8(bytes[i], b[i])];
    }
  }

  lemma OredBits(a: seq<u8>, b: seq<u8>, len: nat, bytes: seq<u8>)
    requires len <= 8 * |a| && len <= 8 * |b| && |bytes| == |a|
    requires forall j :: 0 <= j < |a| ==> bytes[j] == if j < |b| then Or8(a[j], b[j]) else a[j]
    ensures BitsOf(bytes, len) == EitherBits(BitsOf(a, len), BitsOf(b, len))
  {
    forall k | 0 <= k < len ensures BitAt(bytes, k) == (BitAt(a, k) || BitAt(b, k)) {
      assert bytes[k / 8] == Or8(a[k / 8], b[k / 8]);
    }
  }

  /** The source bytes shifted down to a byte boundary. */
  method AlignBytes(source: seq<u8>, offset: nat, n: nat) returns (shifted: seq<u8>)
    requires offset % 8 != 0 && offset / 8 + ByteCount(n) <= |source|
    ensures ByteCount(n) <= |shifted| && offset / 8 + |shifted| <= |source|
    ensures forall j :: 0 <= j < |shifted| ==> shifted[j] == FunnelAt(source, offset / 8 + j, offset % 8)
  {
    var from, count := offset / 8, ByteCount(n) + 1;
    var end := if from + count < |source| then from + count else |source|;
    shifted := [];
    for i := from to end
      invariant |shifted| == i - from
      invariant forall j :: 0 <= j < |shifted| ==> shifted[j] == FunnelAt(source, from + j, offset % 8)
    {
      shifted := shifted + [FunnelByte(source[i], if i + 1 < |source| then source[i + 1] else 0, offset % 8)];
    }
  }

  /** A packed bitmask over a byte buffer. The buffer may hold more bytes than `len` needs. */
  class Bitmask {
    var bits: Buffer<u8>
    var len: nat

    ghost predicate Valid()
      reads this
    {
      bits.Valid() && len <= 8 * bits.Len() && TrailingClear(bits.Elems(), len)
    }

    /** No byte lies past those `len` needs. */
    ghost predicate Compact()
      reads this
    {
      bits.Len() == ByteCount(len)
    }

    ghost function Bits(): (b: seq<bool>)
      requires Valid()
      reads this
      ensures |b| == len
    {
      BitsOf(bits.Elems(), len)
    }

    /** Wraps a buffer as it is, without clearing anything. */
    constructor Wrap(bits: Buffer<u8>, len: nat)
      ensures this.bits == bits && this.len == len
    {
      this.bits := bits;
      this.len := len;
    }

    /** A mask over these bytes, with the unused bits cleared. */
    constructor Packed(bytes: seq<u8>, n: nat)
      requires n <= 8 * |bytes|
      ensures Valid() && len == n && bits.Len() == |bytes|
      ensures Bits() == BitsOf(bytes, n)
    {
      bits := Owned(bytes);
      len := n;
      new;
      MaskTrailingBits();
    }

    constructor NewSetAll(n: nat, value: bool)
      ensures Valid() && Compact()
      ensures Bits() == seq(n, i => value)
    {
      var bytes := ResizeBytes([], ByteCount(n), if value then 0xFF else 0);
      bits := Owned(TrailingMasked(bytes, n));
      len := n;
      new;
      forall k | 0 <= k < n ensures Bits()[k] == value {
        BitByteFull(k % 8);
        BitZero(k % 8);
      }
    }

    /** Clears the unused bits of the last logical byte. */
    method MaskTrailingBits()
      requires bits.Valid() && len <= 8 * bits.Len()
      modifies this
      ensures Valid() && len == old(len)
      ensures bits.Elems() == TrailingMasked(old(bits.Elems()), len)
      ensures forall k :: 0 <= k < len ==> Bits()[k] == BitAt(old(bits.Elems()), k)
      ensures old(Valid()) ==> Bits() == old(Bits())
    {
      if len == 0 || len % 8 == 0 {
        return;
      }
      bits := Owned(TrailingMasked(bits.Elems(), len));
    }

    /** Takes new bytes and a new length, and clears the unused bits. */
    method Install(bytes: seq<u8>, n: nat)
      requires n <= 8 * |bytes|
      modifies this
      ensures Valid() && len == n && bits.Len() == |bytes|
      ensures Bits() == BitsOf(bytes, n)
    {
      bits := Owned(bytes);
      len := n;
      MaskTrailingBits();
    }

    function Get(i: nat): (b: bool)
      requires Valid() && i < 8 * bits.Len()
      reads this
      ensures b == (i < len && Bits()[i])
    {
      if i >= len then false else BitAt(bits.Elems(), i)
    }

    /** Grows the logical length to `n`; bytes past the buffer come in clear. */
    method EnsureCapacity(n: nat)
      requires Valid()
      modifies this
      ensures Valid() && len == (if n > old(len) then n else old(len)) && bits.Len() >= old(bits.Len())
      ensures forall k :: 0 <= k < len ==>
                Bits()[k] == (k < 8 * old(bits.Len()) && BitAt(old(bits.Elems()), k))
      ensures old(Compact()) ==> Compact()
    {
      var needed := ByteCount(n);
      if bits.Len() < needed {
        bits := Owned(ResizeBytes(bits.Elems(), needed, 0));
      }
      ghost var grown := bits.Elems();
      assert forall k :: 0 <= k < 8 * |grown| ==>
          BitAt(grown, k) == (k < 8 * old(bits.Len()) && BitAt(old(bits.Elems()), k)) by { BitZeroAll(); }
      if n > len {
        len := n;
        MaskTrailingBits();
      }
    }

    /** Writes a bit that is already inside the mask. */
    method SetUnchecked(i: nat, value: bool)
      requires Valid() && i < len
      modifies this
      ensures Valid() && len == old(len) && bits.Len() == old(bits.Len())
      ensures Bits() == old(Bits())[i := value]
    {
      var bytes := WithBit(bits.Elems(), i, value);
      OneBitWritten(bits.Elems(), len, i, value, bytes);
      bits := Owned(bytes);
    }

    /** Writes bit `i`, growing the mask when `i` is past its end. */
    method Set(i: nat, value: bool)
      requires Valid()
      modifies this
      ensures Valid() && len == (if i < old(len) then old(len) else i + 1)
      ensures i < old(len) ==> Bits() == old(Bits())[i := value]
      ensures i == old(len) ==> Bits() == old(Bits()) + [value]
      ensures forall k :: 0 <= k < i && k < old(len) ==> Bits()[k] == old(Bits())[k]
      ensures Bits()[i] == value
      ensures old(Compact()) ==> Compact() && forall k :: old(len) <= k < i ==> !Bits()[k]
    {
      EnsureCapacity(i + 1);
      SetUnchecked(i, value);
      MaskTrailingBits();
    }

    method Resize(n: nat, value: bool)
      requires Valid()
      modifies this
      ensures Valid() && Compact() && len == n
      ensures Bits() == BitsAfterResize(old(bits.Elems()), old(len), n, value)
      ensures forall k :: 0 <= k < n && k < old(len) ==> Bits()[k] == old(Bits())[k]
    {
      var oldLen := len;
      var bytes := ResizeBytes(bits.Elems(), ByteCount(n), if value then 0xFF else 0);
      FilledBits(bits.Elems(), ByteCount(n), value);
      ghost var run := oldLen;
      if value && n > oldLen && oldLen % 8 != 0 {
        var limit := if n < 8 * ByteCount(oldLen) then n else 8 * ByteCount(oldLen);
        bytes := SetRun(bytes, oldLen, limit);
        run := limit;
      }
      ResizedBytesBits(bits.Elems(), oldLen, n, value, run, bytes);
      Install(bytes, n);
    }

    /** Resizes upwards. The old bits are kept. */
    method Grow(more: nat, value: bool)
      requires Valid()
      modifies this
      ensures Valid() && len == old(len) + more && bits.Len() == ByteCount(len)
      ensures forall k :: 0 <= k < old(len) ==> BitAt(bits.Elems(), k) == old(Bits())[k]
    {
      Resize(len + more, value);
      assert forall k :: 0 <= k < old(len) ==> Bits()[k] == old(Bits())[k];
    }

    /** Removes the bits in `[start, end)`. */
    method DeleteRange(start: nat, end: nat)
      requires Valid() && start <= end <= len
      modifies this
      ensures Valid() && Bits() == old(Bits())[..start] + old(Bits())[end..]
      ensures old(Compact()) ==> Compact()
    {
      var span := end - start;
      if span == 0 {
        assert Bits() == Bits()[..start] + Bits()[end..];
        return;
      }
      bits := DeleteBits(bits, len, start, end);
      len := len - span;
      MaskTrailingBits();
    }

    /** A fresh mask holding the bits `[offset, offset + n)`. */
    method SliceClone(offset: nat, n: nat) returns (out: Bitmask)
      requires Valid() && offset + n <= len
      ensures fresh(out) && out.Valid() && out.Compact()
      ensures out.Bits() == Bits()[offset..offset + n]
    {
      out := new Bitmask.NewSetAll(n, false);
      if n == 0 {
        return;
      }
      var from, to := offset / 8, ByteCount(offset + n);
      var source := bits.Elems()[from..to];
      var bytes: seq<u8>;
      if offset % 8 == 0 {
        bytes := source[..ByteCount(n)];
      } else {
        bytes := SliceBytes(source, offset % 8, ByteCount(n));
      }
      out.bits := Owned(bytes);
      SlicedBits(bits.Elems(), len, offset, n, to, bytes);
      out.MaskTrailingBits();
    }

    /** Appends the first `n` bits of a packed slice. */
    method ExtendFromSlice(source: seq<u8>, n: nat)
      requires Valid() && ByteCount(n) <= |source|
      modifies this
      ensures Valid() && Compact()
      ensures Bits() == old(Bits()) + BitsOf(source, n)
    {
      var start := len;
      ghost var before := Bits();
      Grow(n, false);
      var bytes := AppendBits(bits.Elems(), start, source, n);
      AppendedBits(before, bytes, source, n);
      Install(bytes, start + n);
    }

    /** Appends the bits `[offset, offset + n)` stored for another mask, whose length the source never looks
        at: past the stored bytes' last bit, clear bits come in. Fewer bytes panic. */
    method ExtendFromBitmaskRange(other: Bitmask, offset: nat, n: nat)
      requires Valid() && other.Valid() && other != this
      requires n > 0 ==> offset / 8 + ByteCount(n) <= other.bits.Len()
      modifies this
      ensures Valid() && (n > 0 ==> Compact())
      ensures Bits() == old(Bits()) + StoredBits(other.bits.Elems(), offset, n)
      ensures offset + n <= other.len ==> Bits() == old(Bits()) + other.Bits()[offset..offset + n]
    {
      if n == 0 {
        return;
      }
      var source := other.bits.Elems();
      StoredInside(source, other.len, offset, n);
      if offset % 8 == 0 {
        AlignedStored(source, offset, n);
        ExtendFromSlice(source[offset / 8..], n);
      } else {
        var shifted := AlignBytes(source, offset, n);
        ShiftedStored(source, offset, n, shifted);
        ExtendFromSlice(shifted, n);
      }
    }

    /** The number of set bits: whole bytes, then the bits in use of the last one. */
    method CountOnes() returns (count: nat)
      requires Valid()
      ensures count == SetCount(Bits())
    {
      var bytes := bits.Elems();
      count := CountBytes(bytes, len / 8);
      if len % 8 != 0 {
        count := count + Ones(And8(bytes[len / 8], LowMask8(len % 8)), 8);
      }
      CountedBits(bytes, len, len / 8, len % 8);
    }

    /** `null_count`: the number of cleared bits. */
    method CountZeros() returns (count: nat)
      requires Valid()
      ensures count == Cleared(Bits())
    {
      var ones := CountOnes();
      SetAndCleared(Bits());
      count := len - ones;
    }

    /** A fresh mask with the bits set in either of two masks of one length; other lengths panic. */
    method Union(other: Bitmask) returns (out: Bitmask)
      requires Valid() && other.Valid() && len == other.len
      ensures fresh(out) && out.Valid() && out.bits.Len() == bits.Len()
      ensures out.Bits() == EitherBits(Bits(), other.Bits())
    {
      var bytes := OrBytes(bits.Elems(), other.bits.Elems());
      OredBits(bits.Elems(), other.bits.Elems(), len, bytes);
      out := new Bitmask.Packed(bytes, len);
    }

    /** Overwrites the bits from `index` on with those of another mask. */
    method CopyFrom(index: nat, other: Bitmask)
      requires Valid() && other.Valid() && other != this && index + other.len <= len
      modifies this
      ensures Valid() && len == old(len)
      ensures Bits() == old(Bits())[..index] + old(other.Bits()) + old(Bits())[index + other.len..]
    {
      var bytes := CopyBits(bits.Elems(), index, other.bits.Elems(), other.len);
      OverwrittenBits(bits.Elems(), len, index, other.Bits(), bytes);
      bits := Owned(bytes);
    }

    /** Appends every bit of another mask. */
    method ExtendFromBitmask(other: Bitmask)
      requires Valid() && other.Valid() && other != this
      modifies this
      ensures Valid() && Compact()
      ensures Bits() == old(Bits()) + other.Bits()
    {
      AppendOneByOne(other.bits.Elems(), other.len);
    }

    /** Grows the mask with set bits, then writes the new bits one at a time. */
    method AppendOneByOne(source: seq<u8>, n: nat)
      requires Valid() && n <= 8 * |source|
      modifies this
      ensures Valid() && Compact()
      ensures Bits() == old(Bits()) + BitsOf(source, n)
    {
      var oldLen := len;
      ghost var before := Bits();
      Grow(n, true);
      var bytes := CopyBits(bits.Elems(), oldLen, source, n);
      CopiedBits(before, bits.Elems(), source, n, bytes);
      Install(bytes, oldLen + n);
    }

    /** Shifts the bits `[index, origLen)` up by `gap`, one at a time from the top. */
    method ShiftUp(index: nat, origLen: nat, gap: nat)
      requires Valid() && index <= origLen && len == origLen + gap
      modifies this
      ensures Valid() && len == old(len)
      ensures forall k :: 0 <= k < len ==> Bits()[k] == old(Bits())[if index + gap <= k then k - gap else k]
    {
      var bytes := ShiftBitsUp(bits.Elems(), index, origLen, gap);
      bits := Owned(bytes);
    }

    /** Sets the bits `[index, index + n)`. */
    method SetRange(index: nat, n: nat)
      requires Valid() && index + n <= len
      modifies this
      ensures Valid() && len == old(len)
      ensures Bits() == old(Bits())[..index] + AllSet(n) + old(Bits())[index + n..]
    {
      var bytes := SetRun(bits.Elems(), index, index + n);
      RunBits(bits.Elems(), len, index, n, bytes);
      bits := Owned(bytes);
    }

    /** Cuts the mask at `at`, returning a fresh mask with the bits from there on. */
    method SplitOff(at: nat) returns (after: Bitmask)
      requires Valid() && at <= len
      requires at % 8 == 0 && at < len ==> bits.Owned?
      modifies this
      ensures Valid() && fresh(after) && after.Valid()
      ensures Bits() == old(Bits())[..at] && after.Bits() == old(Bits())[at..]
      ensures old(Compact()) ==> Compact() && after.Compact()
    {
      if at == len {
        after := new Bitmask.NewSetAll(0, false);
        return;
      }
      var newLen := len - at;
      var bytes := bits.Elems();
      if at % 8 == 0 {
        SplitBytesBits(bytes, len, at);
        Install(bytes[..at / 8], at);
        after := new Bitmask.Packed(bytes[at / 8..], newLen);
      } else {
        var moved := MoveBits(bytes, at, newLen);
        SplitBits(bytes, len, at, moved);
        Install(ResizeBytes(bytes, ByteCount(at), 0), at);
        after := new Bitmask.Packed(moved, newLen);
      }
    }

    /** The masks' buffers adjoin on a byte boundary, with no byte to spare. */
    ghost predicate Adjoins(next: Bitmask)
      requires Valid() && next.Valid()
      reads this, next
    {
      len % 8 == 0 && Compact() && next.Compact() && bits.AdjacentWindow(next.bits).Some?
    }

    /** Joins two masks over adjacent windows of one allocation, when the first ends on a byte boundary. */
    method AdjacentWindow(next: Bitmask) returns (joined: Bitmask?)
      requires Valid() && next.Valid()
      ensures joined != null ==> fresh(joined) && joined.Valid() && joined.Bits() == Bits() + next.Bits()
      ensures joined != null <==> Adjoins(next)
    {
      if len % 8 != 0 || bits.Len() != len / 8 || next.bits.Len() != ByteCount(next.len) {
        return null;
      }
      var both := bits.AdjacentWindow(next.bits);
      if both.None? {
        return null;
      }
      JoinedBits(bits.Elems(), len, next.bits.Elems(), next.len);
      joined := new Bitmask.Wrap(both.value, len + next.len);
    }
  }

  lemma AlignedBits(source: seq<u8>, len: nat, offset: nat, n: nat, shifted: seq<u8>)
    requires offset % 8 != 0 && offset + n <= len <= 8 * |source|
    requires ByteCount(n) <= |shifted| && offset / 8 + |shifted| <= |source|
    requires forall j :: 0 <= j < |shifted| ==> shifted[j] == FunnelAt(source, offset / 8 + j, offset % 8)
    ensures BitsOf(shifted, n) == BitsOf(source, len)[offset..offset + n]
  {
    forall j | 0 <= j < ByteCount(n)
      ensures shifted[j] == FunnelAt(source[offset / 8..|source|], j, offset % 8)
    {}
    SlicedBits(source, len, offset, n, |source|, shifted);
  }

  lemma ShiftedStored(source: seq<u8>, offset: nat, n: nat, shifted: seq<u8>)
    requires offset % 8 != 0 && offset / 8 + ByteCount(n) <= |source|
    requires ByteCount(n) <= |shifted| && offset / 8 + |shifted| <= |source|
    requires forall j :: 0 <= j < |shifted| ==> shifted[j] == FunnelAt(source, offset / 8 + j, offset % 8)
    ensures BitsOf(shifted, n) == StoredBits(source, offset, n)
  {
    var padded := source + [0];
    forall j | 0 <= j < |shifted| ensures shifted[j] == FunnelAt(padded, offset / 8 + j, offset % 8) {}
    AlignedBits(padded, 8 * |padded|, offset, n, shifted);
    PaddedBits(source, offset, n);
  }

  lemma PaddedBits(source: seq<u8>, offset: nat, n: nat)
    requires offset + n <= 8 * |source| + 8
    ensures BitsOf(source + [0], 8 * |source| + 8)[offset..offset + n] == StoredBits(source, offset, n)
  {
    var all := BitsOf(source + [0], 8 * |source| + 8);
    var a, b := all[offset..offset + n], StoredBits(source, offset, n);
    forall i | 0 <= i < n ensures a[i] == b[i] {
      PaddedBit(source, offset + i);
    }
  }

  lemma PaddedBit(source: seq<u8>, k: nat)
    requires k < 8 * |source| + 8
    ensures BitAt(source + [0], k) == (k < 8 * |source| && BitAt(source, k))
  {
    BitZero(k % 8);
  }

  lemma AlignedStored(source: seq<u8>, offset: nat, n: nat)
    requires offset % 8 == 0 && offset / 8 + ByteCount(n) <= |source|
    ensures BitsOf(source[offset / 8..], n) == StoredBits(source, offset, n)
  {
    SlicedBits(source, 8 * |source|, offset, n, |source|, source[offset / 8..]);
    StoredInside(source, 8 * |source|, offset, n);
  }

  /** Stored bits inside the length are the mask's bits. */
  lemma StoredInside(source: seq<u8>, len: nat, offset: nat, n: nat)
    requires len <= 8 * |source|
    ensures offset + n <= len ==> StoredBits(source, offset, n) == BitsOf(source, len)[offset..offset + n]
  {
    if offset + n <= len {
      var a, b := StoredBits(source, offset, n), BitsOf(source, len)[offset..offset + n];
      assert forall i :: 0 <= i < n ==> a[i] == BitAt(source, offset + i) && b[i] == BitsOf(source, len)[offset + i];
      assert a == b;
    }
  }

  lemma SplitBytesBits(bytes: seq<u8>, len: nat, at: nat)
    requires at < len <= 8 * |bytes| && at % 8 == 0
    ensures BitsOf(bytes[..at / 8], at) == BitsOf(bytes, len)[..at]
    ensures BitsOf(bytes[at / 8..], len - at) == BitsOf(bytes, len)[at..]
  {
    forall k | 0 <= k < len - at ensures BitAt(bytes[at / 8..], k) == BitAt(bytes, at + k) {
      assert (at + k) / 8 == at / 8 + k / 8;
    }
  }

  lemma SplitBits(bytes: seq<u8>, len: nat, at: nat, moved: seq<u8>)
    requires at < len <= 8 * |bytes| && |moved| == ByteCount(len - at)
    requires forall k :: 0 <= k < len - at ==> BitAt(moved, k) == BitAt(bytes, at + k)
    ensures BitsOf(ResizeBytes(bytes, ByteCount(at), 0), at) == BitsOf(bytes, len)[..at]
    ensures BitsOf(moved, len - at) == BitsOf(bytes, len)[at..]
  {}

  lemma JoinedBits(a: seq<u8>, aLen: nat, b: seq<u8>, bLen: nat)
    requires aLen == 8 * |a| && |b| == ByteCount(bLen) && TrailingClear(b, bLen)
    ensures BitsOf(a + b, aLen + bLen) == BitsOf(a, aLen) + BitsOf(b, bLen)
    ensures TrailingClear(a + b, aLen + bLen)
  {
    forall k | 0 <= k < 8 * |b| ensures BitAt(a + b, aLen + k) == BitAt(b, k) {
      assert (aLen + k) / 8 == |a| + k / 8 && (aLen + k) % 8 == k % 8;
    }
    AppendedBits(BitsOf(a, aLen), a + b, b, bLen);
    forall i | aLen + bLen <= i < 8 * ByteCount(aLen + bLen) ensures !BitAt(a + b, i) {
      assert BitAt(a + b, aLen + (i - aLen)) == BitAt(b, i - aLen);
    }
  }

  /** Copies `n` bits one at a time into zeroed bytes. */
  method MoveBits(bytes: seq<u8>, at: nat, n: nat) returns (moved: seq<u8>)
    requires at + n <= 8 * |bytes|
    ensures |moved| == ByteCount(n)
    ensures forall k :: 0 <= k < n ==> BitAt(moved, k) == BitAt(bytes, at + k)
  {
    moved := ResizeBytes([], ByteCount(n), 0);
    BitZeroAll();
    for i := 0 to n
      invariant |moved| == ByteCount(n)
      invariant forall k :: 0 <= k < 8 * |moved| ==> BitAt(moved, k) == (k < i && BitAt(bytes, at + k))
    {
      if BitAt(bytes, at + i) {
        moved := WithBit(moved, i, true);
      }
    }
  }

  lemma BitZeroAll()
    ensures forall k: nat :: !Bit(0, k)
  {
    forall k: nat ensures !Bit(0, k) { BitZero(k); }
  }
}
