/** The hasher of the string dictionary's keys, and a hash table over any hash function. */
module DictKeys {
  import opened Words
  import opened Options
  import opened Utf8

  const MULTIPLIER: u64 := 0x5851_F42D_4C95_7F2D
  const WORD_SPACE := 0x1_0000_0000_0000_0000

  /** One folded multiply: the 128-bit product's halves combined by exclusive or. */
  function Mix(state: u64, word: u64): (r: u64) {
    Pow2Values();
    XorBound(state, word, 64);
    var product := Xor(state, word) * MULTIPLIER;
    FoldBound(Xor(state, word));
    XorBound(product % WORD_SPACE, product / WORD_SPACE, 64);
    Xor(product % WORD_SPACE, product / WORD_SPACE)
  }

  lemma FoldBound(x: nat)
    requires x < WORD_SPACE
    ensures x * MULTIPLIER / WORD_SPACE < WORD_SPACE
  {
    assert x * MULTIPLIER < WORD_SPACE * MULTIPLIER;
  }

  /** A mixed bit is one of the product's low half against the same of its high half. */
  lemma MixBit(state: u64, word: u64, k: nat)
    requires k < 64
    ensures var product := Xor(state, word) * MULTIPLIER;
            Bit(Mix(state, word), k) <==> Bit(product, k) != Bit(product, k + 64)
  {
    var product := Xor(state, word) * MULTIPLIER;
    Pow2Values();
    ShiftDivides(product, 64);
    BitTruncate(product, 64, k);
    BitShr(product, 64, k);
    BitXor(Truncate(product, 64), Shr(product, 64), k);
  }

  function MixAll(state: u64, words: seq<u64>): (r: u64) {
    if words == [] then state else Mix(MixAll(state, words[..|words| - 1]), words[|words| - 1])
  }

  /** The tail bytes padded with zeros to a word. */
  function Padded(tail: Bytes): (b: Bytes)
    requires |tail| <= 8
    ensures |b| == 8 && b[..|tail|] == tail && forall k :: |tail| <= k < 8 ==> b[k] == 0
  {
    tail + seq(8 - |tail|, i => 0)
  }

  /** The 8-byte words of the key, and its zero-padded tail when there is one. */
  function KeyWords(bytes: Bytes): (words: seq<u64>) {
    if bytes == [] then []
    else if |bytes| < 8 then [WordAt(Padded(bytes))]
    else [WordAt(bytes[..8])] + KeyWords(bytes[8..])
  }

  /** Everything `write` mixes in: the length first, then the words. */
  function WordStream(bytes: Bytes): (words: seq<u64>)
    requires |bytes| < WORD_SPACE
  {
    [|bytes|] + KeyWords(bytes)
  }

  /** What hashing a `str` key mixes in: its bytes, then the byte 0xFF. */
  function KeyStream(key: Bytes): seq<u64>
    requires |key| < WORD_SPACE
  {
    WordStream(key) + [0xFF]
  }

  function KeyHash(seed: u64, key: Bytes): u64
    requires |key| < WORD_SPACE
  {
    MixAll(seed, KeyStream(key))
  }

  lemma WordInjective(a: Bytes, b: Bytes)
    requires |a| == |b| == 8 && WordAt(a) == WordAt(b)
    ensures a == b
  {
    FromLeToLe(a);
    FromLeToLe(b);
  }

  lemma {:induction false} KeyWordsInjective(a: Bytes, b: Bytes)
    requires |a| == |b| && KeyWords(a) == KeyWords(b)
    ensures a == b
  {
    if |a| >= 8 {
      assert KeyWords(a)[0] == WordAt(a[..8]) && KeyWords(b)[0] == WordAt(b[..8]);
      WordInjective(a[..8], b[..8]);
      assert KeyWords(a)[1..] == KeyWords(a[8..]) && KeyWords(b)[1..] == KeyWords(b[8..]);
      KeyWordsInjective(a[8..], b[8..]);
      assert a == a[..8] + a[8..] && b == b[..8] + b[8..];
    } else if a != [] {
      assert KeyWords(a)[0] == KeyWords(b)[0];
      WordInjective(Padded(a), Padded(b));
      assert a == Padded(a)[..|a|] && b == Padded(b)[..|b|];
    }
  }

  /** Different keys never feed the hasher the same words, whatever their lengths. */
  lemma KeyStreamInjective(a: Bytes, b: Bytes)
    requires |a| < WORD_SPACE && |b| < WORD_SPACE && KeyStream(a) == KeyStream(b)
    ensures a == b
  {
    var x, y := KeyStream(a), KeyStream(b);
    assert x[..|x| - 1] == WordStream(a) && y[..|y| - 1] == WordStream(b);
    assert WordStream(a)[0] == |a| && WordStream(b)[0] == |b|;
    assert WordStream(a)[1..] == KeyWords(a) && WordStream(b)[1..] == KeyWords(b);
    KeyWordsInjective(a, b);
  }

  lemma {:induction false} MixAllAppend(state: u64, a: seq<u64>, b: seq<u64>)
    ensures MixAll(state, a + b) == MixAll(MixAll(state, a), b)
  {
    if b == [] {
      assert a + b == a;
    } else {
      assert (a + b)[..|a + b| - 1] == a + b[..|b| - 1];
      MixAllAppend(state, a, b[..|b| - 1]);
    }
  }

  lemma {:induction false} KeyWordsSplit(bytes: Bytes, i: nat)
    requires i % 8 == 0 && i <= |bytes|
    ensures KeyWords(bytes) == KeyWords(bytes[..i]) + KeyWords(bytes[i..])
    decreases i
  {
    if i == 0 {
      assert bytes[0..] == bytes;
    } else {
      KeyWordsSplit(bytes[8..], i - 8);
      assert bytes[..i][..8] == bytes[..8] && bytes[..i][8..] == bytes[8..][..i - 8];
      assert bytes[8..][i - 8..] == bytes[i..];
    }
  }

  class DictKeyHasher {
    var state: u64

    constructor (seed: u64)
      ensures state == seed
    {
      state := seed;
    }

    method MixWord(word: u64)
      modifies this
      ensures state == MixAll(old(state), [word])
    {
      assert [word][..0] == [];
      state := Mix(state, word);
    }

    /** Mixes in the length, then whole words, then the tail. */
    method Write(bytes: Bytes)
      requires |bytes| < WORD_SPACE
      modifies this
      ensures state == MixAll(old(state), WordStream(bytes))
    {
      MixWord(|bytes|);
      KeyWordsPrefix(bytes);
      var i := 0;
      while i + 8 <= |bytes|
        invariant i % 8 == 0 && i <= |bytes|
        invariant state == MixAll(old(state), [|bytes|] + KeyWords(bytes[..i]))
      {
        MixWord(WordAt(bytes[i..i + 8]));
        WordStep(old(state), |bytes|, bytes, i);
        i := i + 8;
      }
      TailStep(old(state), |bytes|, bytes, i);
      var tail := bytes[i..];
      if tail != [] {
        MixWord(WordAt(Padded(tail)));
      }
    }

    method WriteU8(i: u8)
      modifies this
      ensures state == MixAll(old(state), [i])
    {
      MixWord(i);
    }
  }

  lemma KeyWordsPrefix(bytes: Bytes)
    requires |bytes| < WORD_SPACE
    ensures [|bytes|] + KeyWords(bytes[..0]) == [|bytes|]
  {}

  lemma WordStep(seed: u64, n: u64, bytes: Bytes, i: nat)
    requires i % 8 == 0 && i + 8 <= |bytes|
    ensures MixAll(MixAll(seed, [n] + KeyWords(bytes[..i])), [WordAt(bytes[i..i + 8])])
         == MixAll(seed, [n] + KeyWords(bytes[..i + 8]))
  {
    KeyWordsSplit(bytes[..i + 8], i);
    assert bytes[..i + 8][..i] == bytes[..i] && bytes[..i + 8][i..] == bytes[i..i + 8];
    WholeWord(bytes[i..i + 8]);
    MixAllAppend(seed, [n] + KeyWords(bytes[..i]), [WordAt(bytes[i..i + 8])]);
    assert [n] + KeyWords(bytes[..i]) + [WordAt(bytes[i..i + 8])] == [n] + KeyWords(bytes[..i + 8]);
  }

  lemma TailStep(seed: u64, n: u64, bytes: Bytes, i: nat)
    requires i % 8 == 0 && i <= |bytes| < i + 8
    ensures MixAll(MixAll(seed, [n] + KeyWords(bytes[..i])), KeyWords(bytes[i..])) ==
            MixAll(seed, [n] + KeyWords(bytes))
    ensures KeyWords(bytes[i..]) == if bytes[i..] == [] then [] else [WordAt(Padded(bytes[i..]))]
  {
    KeyWordsSplit(bytes, i);
    MixAllAppend(seed, [n] + KeyWords(bytes[..i]), KeyWords(bytes[i..]));
    assert [n] + KeyWords(bytes[..i]) + KeyWords(bytes[i..]) == [n] + KeyWords(bytes);
  }

  lemma WholeWord(bytes: Bytes)
    requires |bytes| == 8
    ensures KeyWords(bytes) == [WordAt(bytes)]
  {
    assert bytes[..8] == bytes && bytes[8..] == [];
  }

  /** `hash_one` on a key: a fresh hasher, the bytes, the terminator, the final state. */
  method HashKey(seed: u64, key: Bytes) returns (h: u64)
    requires |key| < WORD_SPACE
    ensures h == KeyHash(seed, key)
  {
    var hasher := new DictKeyHasher(seed);
    hasher.Write(key);
    hasher.WriteU8(0xFF);
    MixAllAppend(seed, WordStream(key), [0xFF]);
    h := hasher.state;
  }

  // ----- a hash table -----

  /** The code stored for `key` in one bucket. */
  function InBucket(bucket: seq<(Bytes, nat)>, key: Bytes): Option<nat> {
    if bucket == [] then None
    else if bucket[0].0 == key then Some(bucket[0].1)
    else InBucket(bucket[1..], key)
  }

  lemma {:induction false} InBucketAppend(bucket: seq<(Bytes, nat)>, entry: (Bytes, nat), key: Bytes)
    ensures InBucket(bucket + [entry], key) ==
            match InBucket(bucket, key)
            case Some(c) => Some(c)
            case None => if key == entry.0 then Some(entry.1) else None
  {
    if bucket == [] {
      assert (bucket + [entry])[1..] == [];
    } else {
      assert (bucket + [entry])[1..] == bucket[1..] + [entry];
      InBucketAppend(bucket[1..], entry, key);
    }
  }

  /** A chained hash table from keys to codes. The hash function and the bucket count are arbitrary. */
  class DictTable {
    const hash: Bytes -> nat
    var buckets: seq<seq<(Bytes, nat)>>

    ghost predicate Valid()
      reads this
    {
      |buckets| > 0
    }

    function Lookup(key: Bytes): Option<nat>
      requires Valid()
      reads this
    {
      InBucket(buckets[hash(key) % |buckets|], key)
    }

    constructor (hash: Bytes -> nat, n: nat)
      requires n > 0
      ensures Valid() && this.hash == hash && forall key :: Lookup(key) == None
    {
      this.hash := hash;
      this.buckets := seq(n, i => []);
    }

    /** Adds a key that is not in the table. */
    method Insert(key: Bytes, code: nat)
      requires Valid() && Lookup(key) == None
      modifies this
      ensures Valid()
      ensures forall k :: Lookup(k) == if k == key then Some(code) else old(Lookup(k))
    {
      var b := hash(key) % |buckets|;
      ghost var was := buckets;
      buckets := buckets[b := buckets[b] + [(key, code)]];
      forall k ensures Lookup(k) == if k == key then Some(code) else old(Lookup(k)) {
        InBucketAppend(was[b], (key, code), k);
      }
    }
  }
}
