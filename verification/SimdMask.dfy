/** Lane masks read from and written to a packed bitmask a 64-bit word at a time. The words are the
    mask's whole allocation; the bits past its logical length are arbitrary. */
module SimdMasks {
  import opened Words
  import Bitmasks

  predicate WordBit(words: seq<u64>, i: nat)
    requires i < 64 * |words|
  {
    Bit(words[i / 64], i % 64)
  }

  function WordCount(len: nat): nat {
    (len + 63) / 64
  }

  /** The words are the little-endian words of the mask's bytes, so both number the bits alike. */
  lemma WordsNumberBitsAsBytes(bytes: seq<u8>, words: seq<u64>, i: nat)
    requires |bytes| == 8 * |words| && i < 64 * |words|
    requires forall w :: 0 <= w < |words| ==> words[w] == FromLe(bytes[8 * w..8 * w + 8])
    ensures WordBit(words, i) == Bitmasks.BitAt(bytes, i)
  {
    var w := i / 64;
    var word := bytes[8 * w..8 * w + 8];
    BitFromLe(word, i % 64);
    assert i / 8 == 8 * w + i % 64 / 8 && i % 8 == i % 64 % 8;
    assert word[i % 64 / 8] == bytes[i / 8];
  }

  /** The lanes of `Mask::from_bitmask`. */
  function FromBitmask(raw: u64, n: nat): (lanes: seq<bool>)
    ensures |lanes| == n
    ensures forall i :: 0 <= i < n ==> lanes[i] == Bit(raw, i)
  {
    seq(n, i requires 0 <= i < n => Bit(raw, i))
  }

  /** `Mask::to_bitmask`: lane `i` becomes bit `i`. */
  function ToBitmask(lanes: seq<bool>): (raw: u64)
    requires |lanes| <= 64
    ensures forall k: nat :: Bit(raw, k) == (k < |lanes| && lanes[k])
  {
    PackBound(lanes);
    Pow2Grows(|lanes|, 64);
    Pow2Values();
    assert forall k: nat :: Bit(Pack(lanes), k) == (k < |lanes| && lanes[k]) by {
      forall k: nat ensures Bit(Pack(lanes), k) == (k < |lanes| && lanes[k]) { BitPack(lanes, k); }
    }
    Pack(lanes)
  }

  function Pack(lanes: seq<bool>): nat {
    if lanes == [] then 0 else 2 * Pack(lanes[1..]) + (if lanes[0] then 1 else 0)
  }

  lemma {:induction false} PackBound(lanes: seq<bool>)
    ensures Pack(lanes) < Pow2(|lanes|)
  {
    if lanes != [] { PackBound(lanes[1..]); }
  }

  lemma {:induction false} BitPack(lanes: seq<bool>, k: nat)
    ensures Bit(Pack(lanes), k) == (k < |lanes| && lanes[k])
  {
    if lanes == [] {
      BitZero(k);
    } else if k > 0 {
      PackHalf(lanes);
      BitPack(lanes[1..], k - 1);
    } else {
      PackHalf(lanes);
    }
  }

  lemma PackHalf(lanes: seq<bool>)
    requires lanes != []
    ensures Pack(lanes) / 2 == Pack(lanes[1..]) && (Pack(lanes) % 2 == 1 <==> lanes[0])
  {}

  /** The 64 bits from `offset` on, its upper bits taken from the next word when the mask reaches it. */
  function RawBits(words: seq<u64>, maskLen: nat, offset: nat): (raw: u64)
    requires offset / 64 < |words| && WordCount(maskLen) <= |words|
  {
    var wordIdx := offset / 64;
    var bitShift := offset % 64;
    var raw := Shr64(words[wordIdx], bitShift);
    if bitShift > 0 && wordIdx + 1 < WordCount(maskLen)
    then Or64(raw, Shl64(words[wordIdx + 1], 64 - bitShift))
    else raw
  }

  lemma RawBit(words: seq<u64>, maskLen: nat, offset: nat, i: nat)
    requires offset / 64 < |words| && WordCount(maskLen) <= |words| && i < 64
    ensures Bit(RawBits(words, maskLen, offset), i)
       <==> ((offset + i) / 64 == offset / 64 || (offset + i) / 64 < WordCount(maskLen))
            && WordBit(words, offset + i)
  {
    var w, s := offset / 64, offset % 64;
    if s + i < 64 {
      assert (offset + i) / 64 == w && (offset + i) % 64 == s + i;
    } else {
      assert (offset + i) / 64 == w + 1 && (offset + i) % 64 == s + i - 64;
      Pow2Values();
      BitAboveWidth(words[w], 64, s + i);
    }
  }

  /** The bits of `n <= 64` lanes at `offset`, with lanes at and past `len` cleared. */
  function SimdMask(words: seq<u64>, maskLen: nat, offset: nat, len: nat, n: nat): (lanes: seq<bool>)
    requires n <= 64 && offset / 64 < |words| && WordCount(maskLen) <= |words|
    ensures |lanes| == n
  {
    var raw := RawBits(words, maskLen, offset);
    var remaining := if offset < len then len - offset else 0;
    var raw := if remaining < n && remaining < 64 then And64(raw, LowMask64(remaining)) else raw;
    FromBitmask(raw, n)
  }

  /** Every lane, for every offset and length: a lane is set exactly when its index is below `len`, its
      bit is set, and its word is the one at `offset` or one the mask still reaches. */
  lemma SimdMaskLane(words: seq<u64>, maskLen: nat, offset: nat, len: nat, n: nat, i: nat)
    requires n <= 64 && offset / 64 < |words| && WordCount(maskLen) <= |words| && i < n
    ensures SimdMask(words, maskLen, offset, len, n)[i]
       <==> offset + i < len
            && ((offset + i) / 64 == offset / 64 || (offset + i) / 64 < WordCount(maskLen))
            && WordBit(words, offset + i)
  {
    RawBit(words, maskLen, offset, i);
  }

  /** For a length within the mask, the lanes are the mask's bits and nothing past `len`. */
  lemma SimdMaskReadsMask(words: seq<u64>, maskLen: nat, offset: nat, len: nat, n: nat)
    requires n <= 64 && offset / 64 < |words| && WordCount(maskLen) <= |words| && len <= maskLen
    ensures forall i :: 0 <= i < n ==>
              SimdMask(words, maskLen, offset, len, n)[i] == (offset + i < len && WordBit(words, offset + i))
  {
    forall i | 0 <= i < n
      ensures SimdMask(words, maskLen, offset, len, n)[i] == (offset + i < len && WordBit(words, offset + i))
    {
      SimdMaskLane(words, maskLen, offset, len, n, i);
    }
  }

  /** Overwrites the bits `[offset, offset + |lanes|)`, across a word boundary when they straddle one. */
  method WriteSimdMaskBits(words: array<u64>, offset: nat, lanes: seq<bool>)
    requires |lanes| <= 64 && offset / 64 < words.Length && offset + |lanes| <= 64 * words.Length
    modifies words
    ensures forall i :: 0 <= i < 64 * words.Length ==>
              WordBit(words[..], i)
              == if offset <= i < offset + |lanes| then lanes[i - offset] else WordBit(old(words[..]), i)
  {
    var n := |lanes|;
    var mbits := ToBitmask(lanes);
    var wordIdx, bitShift := offset / 64, offset % 64;
    var existing := words[wordIdx];
    var laneMask: u64 := if n >= 64 then 0xFFFF_FFFF_FFFF_FFFF else LowMask64(n);
    var cleared := And64(existing, Not64(Shl64(laneMask, bitShift)));
    words[wordIdx] := Or64(cleared, Shl64(mbits, bitShift));
    LaneMaskBits(n);
    ghost var first := words[wordIdx];
    assert forall k: nat :: k < 64 ==>
        Bit(first, k) == if bitShift <= k < bitShift + n then lanes[k - bitShift] else Bit(existing, k);
    if bitShift > 0 && bitShift + n > 64 {
      var overflowBits := n - (64 - bitShift);
      var nextExisting := words[wordIdx + 1];
      var overflowMask := LowMask64(overflowBits);
      var clearedNext := And64(nextExisting, Not64(overflowMask));
      words[wordIdx + 1] := Or64(clearedNext, Shr64(mbits, 64 - bitShift));
      ghost var second := words[wordIdx + 1];
      assert forall k: nat :: k < 64 ==>
          Bit(second, k) == if k < overflowBits then lanes[k + (64 - bitShift)] else Bit(nextExisting, k);
    }
  }

  lemma LaneMaskBits(n: nat)
    requires n <= 64
    ensures n == 64 ==> forall k: nat :: Bit(0xFFFF_FFFF_FFFF_FFFF, k) == (k < 64)
  {
    Pow2Values();
    forall k: nat ensures Bit(0xFFFF_FFFF_FFFF_FFFF, k) == (k < 64) { BitLowMask(64, k); }
  }

  /** Reading the lanes just written gives them back. */
  lemma SimdMaskReadsBack(words: seq<u64>, maskLen: nat, offset: nat, len: nat, lanes: seq<bool>)
    requires |lanes| <= 64 && offset / 64 < |words| && WordCount(maskLen) <= |words|
    requires offset + |lanes| <= len <= maskLen
    requires forall i :: offset <= i < offset + |lanes| ==> WordBit(words, i) == lanes[i - offset]
    ensures SimdMask(words, maskLen, offset, len, |lanes|) == lanes
  {
    SimdMaskReadsMask(words, maskLen, offset, len, |lanes|);
    forall i | 0 <= i < |lanes| ensures SimdMask(words, maskLen, offset, len, |lanes|)[i] == lanes[i] {
      assert WordBit(words, offset + i) == lanes[offset + i - offset];
    }
  }

  /** Writes the lanes and reads them at the same offset. They come back. */
  method WriteThenRead(words: array<u64>, maskLen: nat, offset: nat, len: nat, lanes: seq<bool>)
    returns (back: seq<bool>)
    requires |lanes| <= 64 && offset / 64 < words.Length && WordCount(maskLen) <= words.Length
    requires offset + |lanes| <= len <= maskLen
    modifies words
    ensures back == lanes
    ensures forall i :: 0 <= i < 64 * words.Length && !(offset <= i < offset + |lanes|) ==>
              WordBit(words[..], i) == WordBit(old(words[..]), i)
  {
    WriteSimdMaskBits(words, offset, lanes);
    SimdMaskReadsBack(words[..], maskLen, offset, len, lanes);
    back := SimdMask(words[..], maskLen, offset, len, |lanes|);
  }
}
