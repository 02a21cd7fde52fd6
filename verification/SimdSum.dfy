/** Wrapping 64-bit sums: the unrolled lane sum, and sums of chunks in any order. */
module SimdSums {
  const HALF := 0x8000_0000_0000_0000

  /** The signed 64-bit value congruent to `x`. */
  function Wrap(x: int): (r: int)
    ensures -HALF <= r < HALF
  {
    (x + 0x8000_0000_0000_0000) % 0x1_0000_0000_0000_0000 - 0x8000_0000_0000_0000
  }

  /** Equal up to a multiple of 2^64. */
  ghost predicate Congruent(a: int, b: int) {
    exists q: int :: OffBy(a, b, q)
  }

  predicate OffBy(a: int, b: int, q: int) {
    a == b + q * 0x1_0000_0000_0000_0000
  }

  lemma WrapCongruent(x: int)
    ensures Congruent(Wrap(x), x)
  {
    var q := (x + 0x8000_0000_0000_0000) / 0x1_0000_0000_0000_0000;
    assert OffBy(Wrap(x), x, -q);
  }

  lemma CongruentWraps(a: int, b: int)
    requires Congruent(a, b)
    ensures Wrap(a) == Wrap(b)
  {
    var q: int :| OffBy(a, b, q);
  }

  lemma CongruentSame(a: int)
    ensures Congruent(a, a)
  {
    assert OffBy(a, a, 0);
  }

  lemma CongruentAdd(a: int, a': int, b: int, b': int)
    requires Congruent(a, a') && Congruent(b, b')
    ensures Congruent(a + b, a' + b')
  {
    var p: int :| OffBy(a, a', p);
    var q: int :| OffBy(b, b', q);
    assert OffBy(a + b, a' + b', p + q);
  }

  lemma CongruentPlus(a: int, a': int, b: int)
    requires Congruent(a, a')
    ensures Congruent(a + b, a' + b)
  {
    CongruentSame(b);
    CongruentAdd(a, a', b, b);
  }

  lemma CongruentTrans(a: int, b: int, c: int)
    requires Congruent(a, b) && Congruent(b, c)
    ensures Congruent(a, c)
  {
    var p: int :| OffBy(a, b, p);
    var q: int :| OffBy(b, c, q);
    assert OffBy(a, c, p + q);
  }

  /** Wrapping inside a sum changes nothing once the sum itself is wrapped. */
  lemma WrapInside(a: int, b: int)
    ensures Wrap(Wrap(a) + b) == Wrap(a + b)
  {
    WrapCongruent(a);
    CongruentPlus(Wrap(a), a, b);
    CongruentWraps(Wrap(a) + b, a + b);
  }

  function Sum(s: seq<int>): int {
    if s == [] then 0 else Sum(s[..|s| - 1]) + s[|s| - 1]
  }

  /** The plain loop: one wrapping addition after another. */
  function SequentialSum(s: seq<int>): int {
    if s == [] then 0 else Wrap(SequentialSum(s[..|s| - 1]) + s[|s| - 1])
  }

  lemma {:induction false} SequentialIsWrapped(s: seq<int>)
    ensures SequentialSum(s) == Wrap(Sum(s))
  {
    if s != [] {
      SequentialIsWrapped(s[..|s| - 1]);
      WrapInside(Sum(s[..|s| - 1]), s[|s| - 1]);
    }
  }

  lemma {:induction false} SumAppend(a: seq<int>, b: seq<int>)
    ensures Sum(a + b) == Sum(a) + Sum(b)
  {
    if b == [] {
      assert a + b == a;
    } else {
      assert (a + b)[..|a + b| - 1] == a + b[..|b| - 1];
      SumAppend(a, b[..|b| - 1]);
    }
  }

  /** Adding two lane vectors, each lane wrapping. */
  function LaneAdd(a: seq<int>, b: seq<int>): (r: seq<int>)
    requires |a| == |b|
    ensures |r| == |a|
  {
    seq(|a|, i requires 0 <= i < |a| => Wrap(a[i] + b[i]))
  }

  function Splat(n: nat): (r: seq<int>)
    ensures |r| == n
  {
    seq(n, i => 0)
  }

  lemma {:induction false} SplatSum(n: nat)
    ensures Sum(Splat(n)) == 0
  {
    if n > 0 {
      assert Splat(n)[..n - 1] == Splat(n - 1);
      SplatSum(n - 1);
    }
  }

  lemma LaneAddSplits(a: seq<int>, b: seq<int>)
    requires |a| == |b| > 0
    ensures var n := |a| - 1; Sum(LaneAdd(a, b)) == Sum(LaneAdd(a[..n], b[..n])) + Wrap(a[n] + b[n])
  {
    assert LaneAdd(a, b)[..|a| - 1] == LaneAdd(a[..|a| - 1], b[..|a| - 1]);
  }

  lemma {:induction false} LaneAddSum(a: seq<int>, b: seq<int>)
    requires |a| == |b|
    ensures Congruent(Sum(LaneAdd(a, b)), Sum(a) + Sum(b))
  {
    if a == [] {
      CongruentSame(0);
    } else {
      var n := |a| - 1;
      LaneAddSum(a[..n], b[..n]);
      LaneAddSplits(a, b);
      WrapCongruent(a[n] + b[n]);
      CongruentAdd(Sum(LaneAdd(a[..n], b[..n])), Sum(a[..n]) + Sum(b[..n]), Wrap(a[n] + b[n]), a[n] + b[n]);
    }
  }

  /** The accumulators hold the sum of the first `k` elements, up to wrapping. */
  ghost predicate Holds(acc: int, data: seq<int>, k: nat)
    requires k <= |data|
  {
    Congruent(acc, Sum(data[..k]))
  }

  lemma CongruentReplace(x: int, x': int, total: int, y: int)
    requires Congruent(x, x') && Congruent(total, y)
    ensures Congruent(total - x' + x, y)
  {
    var p: int :| OffBy(x, x', p);
    var q: int :| OffBy(total, y, q);
    assert OffBy(total - x' + x, y, p + q);
  }

  /** Adding the vector at `k` to one lane accumulator, among others whose sums make up `total`. */
  lemma AccumulateLanes(acc: seq<int>, total: int, data: seq<int>, k: nat)
    requires k + |acc| <= |data| && Holds(total, data, k)
    ensures Holds(total - Sum(acc) + Sum(LaneAdd(acc, data[k..k + |acc|])), data, k + |acc|)
  {
    var v := data[k..k + |acc|];
    LaneAddSum(acc, v);
    assert data[..k + |acc|] == data[..k] + v;
    SumAppend(data[..k], v);
    CongruentPlus(total, Sum(data[..k]), Sum(v));
    CongruentReplace(Sum(LaneAdd(acc, v)), Sum(acc) + Sum(v), total + Sum(v), Sum(data[..k + |acc|]));
  }

  lemma AccumulateOne(acc: int, data: seq<int>, k: nat)
    requires k < |data| && Holds(acc, data, k)
    ensures Holds(Wrap(acc + data[k]), data, k + 1)
  {
    assert data[..k + 1][..k] == data[..k];
    CongruentPlus(acc, Sum(data[..k]), data[k]);
    WrapCongruent(acc + data[k]);
    CongruentTrans(Wrap(acc + data[k]), acc + data[k], Sum(data[..k + 1]));
  }

  /** Joining two accumulators keeps what they hold together. */
  lemma JoinLanes(a: seq<int>, b: seq<int>, total: int, data: seq<int>, k: nat)
    requires |a| == |b| && k <= |data| && Holds(total, data, k)
    ensures Holds(total - (Sum(a) + Sum(b)) + Sum(LaneAdd(a, b)), data, k)
  {
    LaneAddSum(a, b);
    CongruentReplace(Sum(LaneAdd(a, b)), Sum(a) + Sum(b), total, Sum(data[..k]));
  }

  lemma Products(i: nat, unrolled: nat, lanes: nat)
    requires i < unrolled
    ensures (i + 1) * 4 * lanes == i * 4 * lanes + 4 * lanes <= unrolled * 4 * lanes
  {
    Fewer((i + 1) * 4, unrolled * 4, lanes);
  }

  lemma NextChunk(i: nat, chunks: nat, lanes: nat)
    requires i < chunks
    ensures (i + 1) * lanes == i * lanes + lanes <= chunks * lanes
  {
    assert (i + 1) * lanes <= chunks * lanes;
  }

  /** Four lane accumulators, then the chunks left over, the lanes, and the elements left over. Every
      read is in bounds, and the result is the plain wrapping sum. */
  method SimdSumUnrolled(data: seq<int>, lanes: nat) returns (result: int)
    requires lanes >= 1
    ensures result == SequentialSum(data)
  {
    var chunks := |data| / lanes;
    assert chunks * lanes <= |data|;
    var unrolled := chunks / 4;
    Fewer(unrolled * 4, chunks, lanes);
    var acc1, acc2, acc3, acc4 := UnrolledLoop(data, lanes, unrolled, unrolled * 4 * lanes);
    var processed := unrolled * 4;
    var acc := JoinAccumulators(data, processed * lanes, acc1, acc2, acc3, acc4);
    acc := AddChunks(data, lanes, processed, chunks, acc);
    result := AddLanes(acc);
    CongruentTrans(result, Sum(acc), Sum(data[..chunks * lanes]));
    result := AddTail(data, chunks * lanes, result);
  }

  lemma Fewer(a: nat, b: nat, lanes: nat)
    requires a <= b
    ensures a * lanes <= b * lanes
  {}

  /** The unrolled loop over four accumulators that start at zero. */
  method UnrolledLoop(data: seq<int>, lanes: nat, unrolled: nat, ghost end: nat)
    returns (acc1: seq<int>, acc2: seq<int>, acc3: seq<int>, acc4: seq<int>)
    requires end == unrolled * 4 * lanes <= |data|
    ensures |acc1| == |acc2| == |acc3| == |acc4| == lanes
    ensures Holds(Sum(acc1) + Sum(acc2) + Sum(acc3) + Sum(acc4), data, end)
  {
    acc1, acc2, acc3, acc4 := Splat(lanes), Splat(lanes), Splat(lanes), Splat(lanes);
    SplatSum(lanes);
    CongruentSame(0);
    var base := 0;
    for i := 0 to unrolled
      invariant |acc1| == |acc2| == |acc3| == |acc4| == lanes
      invariant base == i * 4 * lanes <= end
      invariant Holds(Sum(acc1) + Sum(acc2) + Sum(acc3) + Sum(acc4), data, base)
    {
      Products(i, unrolled, lanes);
      acc1, acc2, acc3, acc4 := UnrolledStep(data, lanes, base, acc1, acc2, acc3, acc4);
      base := base + 4 * lanes;
    }
  }

  /** Adds the vectors of the chunks `[from, to)` to one accumulator. */
  method AddChunks(data: seq<int>, lanes: nat, from: nat, to: nat, start: seq<int>) returns (acc: seq<int>)
    requires |start| == lanes && from <= to && from * lanes <= to * lanes <= |data|
    requires Holds(Sum(start), data, from * lanes)
    ensures |acc| == lanes && Holds(Sum(acc), data, to * lanes)
  {
    acc := start;
    var offset := from * lanes;
    for i := from to to
      invariant |acc| == lanes && offset == i * lanes <= to * lanes && Holds(Sum(acc), data, offset)
    {
      NextChunk(i, to, lanes);
      ghost var total;
      acc, total := AddVector(data, offset, acc, Sum(acc));
      offset := offset + lanes;
    }
  }

  /** One iteration of the unrolled loop: four vectors into four accumulators. */
  method UnrolledStep(data: seq<int>, lanes: nat, k: nat, a1: seq<int>, a2: seq<int>, a3: seq<int>, a4: seq<int>)
    returns (b1: seq<int>, b2: seq<int>, b3: seq<int>, b4: seq<int>)
    requires |a1| == |a2| == |a3| == |a4| == lanes && k + 4 * lanes <= |data|
    requires Holds(Sum(a1) + Sum(a2) + Sum(a3) + Sum(a4), data, k)
    ensures |b1| == |b2| == |b3| == |b4| == lanes
    ensures Holds(Sum(b1) + Sum(b2) + Sum(b3) + Sum(b4), data, k + 4 * lanes)
  {
    ghost var t := Sum(a1) + Sum(a2) + Sum(a3) + Sum(a4);
    b1, t := AddVector(data, k, a1, t);
    b2, t := AddVector(data, k + lanes, a2, t);
    b3, t := AddVector(data, k + 2 * lanes, a3, t);
    b4, t := AddVector(data, k + 3 * lanes, a4, t);
  }

  /** Reads the vector at `k` and adds it to one accumulator. */
  method AddVector(data: seq<int>, k: nat, acc: seq<int>, ghost total: int) returns (r: seq<int>, ghost newTotal: int)
    requires k + |acc| <= |data| && Holds(total, data, k)
    ensures |r| == |acc| && newTotal == total - Sum(acc) + Sum(r) && Holds(newTotal, data, k + |acc|)
  {
    r := LaneAdd(acc, data[k..k + |acc|]);
    AccumulateLanes(acc, total, data, k);
    newTotal := total - Sum(acc) + Sum(r);
  }

  method JoinAccumulators(data: seq<int>, k: nat, a1: seq<int>, a2: seq<int>, a3: seq<int>, a4: seq<int>)
    returns (acc: seq<int>)
    requires |a1| == |a2| == |a3| == |a4| && k <= |data|
    requires Holds(Sum(a1) + Sum(a2) + Sum(a3) + Sum(a4), data, k)
    ensures |acc| == |a1| && Holds(Sum(acc), data, k)
  {
    var a12 := LaneAdd(a1, a2);
    var a123 := LaneAdd(a12, a3);
    acc := LaneAdd(a123, a4);
    ghost var t0 := Sum(a1) + Sum(a2) + Sum(a3) + Sum(a4);
    JoinLanes(a1, a2, t0, data, k);
    ghost var t1 := t0 - (Sum(a1) + Sum(a2)) + Sum(a12);
    JoinLanes(a12, a3, t1, data, k);
    ghost var t2 := t1 - (Sum(a12) + Sum(a3)) + Sum(a123);
    JoinLanes(a123, a4, t2, data, k);
  }

  /** Adds the lanes up, wrapping. */
  method AddLanes(acc: seq<int>) returns (result: int)
    ensures result == Wrap(Sum(acc)) && Congruent(result, Sum(acc))
  {
    result := 0;
    for i := 0 to |acc|
      invariant result == Wrap(Sum(acc[..i]))
    {
      WrapInside(Sum(acc[..i]), acc[i]);
      assert acc[..i + 1][..i] == acc[..i];
      result := Wrap(result + acc[i]);
    }
    assert acc[..|acc|] == acc;
    WrapCongruent(Sum(acc));
  }

  /** Adds the elements from `k` on, wrapping. */
  method AddTail(data: seq<int>, k: nat, start: int) returns (result: int)
    requires k <= |data| && Holds(start, data, k) && -HALF <= start < HALF
    ensures result == SequentialSum(data)
  {
    result := start;
    for i := k to |data|
      invariant Holds(result, data, i) && -HALF <= result < HALF
    {
      AccumulateOne(result, data, i);
      result := Wrap(result + data[i]);
    }
    assert data[..|data|] == data;
    SequentialIsWrapped(data);
    CongruentWraps(result, Sum(data));
  }

  /** The same with one accumulator, as the parallel sum runs it on each chunk. */
  method SimdSum(data: seq<int>, lanes: nat) returns (result: int)
    requires lanes >= 1
    ensures result == SequentialSum(data)
  {
    var chunks := |data| / lanes;
    assert chunks * lanes <= |data|;
    var acc := Splat(lanes);
    SplatSum(lanes);
    CongruentSame(0);
    acc := AddChunks(data, lanes, 0, chunks, acc);
    result := AddLanes(acc);
    CongruentTrans(result, Sum(acc), Sum(data[..chunks * lanes]));
    result := AddTail(data, chunks * lanes, result);
  }

  // ----- chunks summed in any order -----

  /** Consecutive chunks of `size` elements, the last one shorter when `size` does not divide the length. */
  function Chunks(data: seq<int>, size: nat): seq<seq<int>>
    requires size > 0
  {
    if data == [] then []
    else if |data| <= size then [data]
    else [data[..size]] + Chunks(data[size..], size)
  }

  /** The chunks are the data cut in order, all full but the last, and none empty. */
  lemma {:induction false} ChunksCut(data: seq<int>, size: nat)
    requires size > 0
    ensures var parts := Chunks(data, size);
            (parts == [] <==> data == [])
            && (forall i :: 0 <= i < |parts| ==> 0 < |parts[i]| <= size)
            && (forall i :: 0 <= i < |parts| - 1 ==> |parts[i]| == size)
            && (forall i, k :: 0 <= i < |parts| && 0 <= k < |parts[i]| ==> IsPieceAt(data, size, parts, i, k))
    decreases |data|
  {
    if |data| > size {
      var rest := Chunks(data[size..], size);
      ChunksCut(data[size..], size);
      assert Chunks(data, size) == [data[..size]] + rest;
      forall i, k | 0 <= i < |rest| + 1 && 0 <= k < |Chunks(data, size)[i]|
        ensures IsPieceAt(data, size, Chunks(data, size), i, k)
      {
        if i > 0 { assert IsPieceAt(data[size..], size, rest, i - 1, k); }
      }
    }
  }

  /** Element `k` of chunk `i` is element `i * size + k` of the data. */
  predicate IsPieceAt(data: seq<int>, size: nat, parts: seq<seq<int>>, i: nat, k: nat)
    requires i < |parts| && k < |parts[i]|
  {
    i * size + k < |data| && parts[i][k] == data[i * size + k]
  }

  function SumOfSums(parts: seq<seq<int>>): int {
    if parts == [] then 0 else Sum(parts[0]) + SumOfSums(parts[1..])
  }

  lemma {:induction false} ChunksSum(data: seq<int>, size: nat)
    requires size > 0
    ensures SumOfSums(Chunks(data, size)) == Sum(data)
  {
    if |data| > size {
      ChunksSum(data[size..], size);
      SumAppend(data[..size], data[size..]);
      assert data[..size] + data[size..] == data;
      assert Chunks(data, size)[1..] == Chunks(data[size..], size);
    }
  }

  /** How a parallel reduction combines partial sums: any tree, an empty piece counting 0. */
  datatype Reduction = Nothing | Part(i: nat) | Combine(left: Reduction, right: Reduction)

  function Parts(t: Reduction): seq<nat> {
    match t
    case Nothing => []
    case Part(i) => [i]
    case Combine(l, r) => Parts(l) + Parts(r)
  }

  predicate InRange(indices: seq<nat>, n: nat) {
    forall k :: 0 <= k < |indices| ==> indices[k] < n
  }

  lemma InRangeAppend(a: seq<nat>, b: seq<nat>, n: nat)
    ensures InRange(a + b, n) <==> InRange(a, n) && InRange(b, n)
  {
    var c := a + b;
    if InRange(c, n) {
      forall k | 0 <= k < |a| ensures a[k] < n { assert c[k] == a[k]; }
      forall k | 0 <= k < |b| ensures b[k] < n { assert c[|a| + k] == b[k]; }
    }
  }

  /** The reduction's result, each part summed by itself. */
  function Reduced(t: Reduction, parts: seq<seq<int>>): int
    requires InRange(Parts(t), |parts|)
  {
    match t
    case Nothing => 0
    case Part(i) => assert Parts(t)[0] == i; SequentialSum(parts[i])
    case Combine(l, r) =>
      InRangeAppend(Parts(l), Parts(r), |parts|);
      Wrap(Reduced(l, parts) + Reduced(r, parts))
  }

  /** The sum of the parts a list of indices names. */
  function Picked(indices: seq<nat>, parts: seq<seq<int>>): int
    requires InRange(indices, |parts|)
  {
    if indices == [] then 0 else Sum(parts[indices[0]]) + Picked(indices[1..], parts)
  }

  lemma {:induction false} PickedAppend(a: seq<nat>, b: seq<nat>, parts: seq<seq<int>>)
    requires InRange(a, |parts|) && InRange(b, |parts|)
    ensures InRange(a + b, |parts|) && Picked(a + b, parts) == Picked(a, parts) + Picked(b, parts)
  {
    InRangeAppend(a, b, |parts|);
    if a == [] {
      assert a + b == b;
    } else {
      assert (a + b)[1..] == a[1..] + b;
      PickedAppend(a[1..], b, parts);
    }
  }

  lemma PickedOne(i: nat, parts: seq<seq<int>>)
    requires i < |parts|
    ensures Picked([i], parts) == Sum(parts[i])
  {
    assert [i][1..] == [];
  }

  lemma {:induction false} ReducedIsPicked(t: Reduction, parts: seq<seq<int>>)
    requires InRange(Parts(t), |parts|)
    ensures Congruent(Reduced(t, parts), Picked(Parts(t), parts))
  {
    match t
    case Nothing =>
      CongruentSame(0);
    case Part(i) =>
      assert Parts(t)[0] == i;
      SequentialIsWrapped(parts[i]);
      PickedOne(i, parts);
      WrapCongruent(Sum(parts[i]));
    case Combine(l, r) =>
      InRangeAppend(Parts(l), Parts(r), |parts|);
      ReducedIsPicked(l, parts);
      ReducedIsPicked(r, parts);
      PickedAppend(Parts(l), Parts(r), parts);
      CongruentWrapped(Reduced(l, parts), Picked(Parts(l), parts), Reduced(r, parts), Picked(Parts(r), parts));
  }

  lemma CongruentWrapped(a: int, a': int, b: int, b': int)
    requires Congruent(a, a') && Congruent(b, b')
    ensures Congruent(Wrap(a + b), a' + b')
  {
    CongruentAdd(a, a', b, b');
    WrapCongruent(a + b);
    CongruentTrans(Wrap(a + b), a + b, a' + b');
  }

  /** Moving one index to the front changes nothing. */
  lemma PickedMove(b: seq<nat>, k: nat, parts: seq<seq<int>>)
    requires k < |b| && InRange(b, |parts|)
    ensures InRange(b[..k] + b[k + 1..], |parts|)
    ensures Picked(b, parts) == Sum(parts[b[k]]) + Picked(b[..k] + b[k + 1..], parts)
  {
    assert b == b[..k] + b[k..] && b[k..][1..] == b[k + 1..];
    PickedAppend(b[..k], b[k..], parts);
    PickedAppend(b[..k], b[k + 1..], parts);
  }

  lemma MultisetMove(a: seq<nat>, b: seq<nat>, k: nat)
    requires a != [] && k < |b| && b[k] == a[0] && multiset(a) == multiset(b)
    ensures multiset(a[1..]) == multiset(b[..k] + b[k + 1..])
  {
    assert a == [a[0]] + a[1..];
    assert b == b[..k] + [b[k]] + b[k + 1..];
    assert multiset(a[1..]) == multiset(a) - multiset{a[0]};
    assert multiset(b[..k] + b[k + 1..]) == multiset(b) - multiset{b[k]};
  }

  /** Picking the same indices in another order gives the same sum. */
  lemma {:induction false} PickedPermuted(a: seq<nat>, b: seq<nat>, parts: seq<seq<int>>)
    requires multiset(a) == multiset(b) && InRange(a, |parts|) && InRange(b, |parts|)
    ensures Picked(a, parts) == Picked(b, parts)
    decreases |a|
  {
    assert |a| == |multiset(a)| == |multiset(b)| == |b|;
    if a != [] {
      assert a[0] in multiset(b);
      var k :| 0 <= k < |b| && b[k] == a[0];
      PickedMove(b, k, parts);
      MultisetMove(a, b, k);
      PickedPermuted(a[1..], b[..k] + b[k + 1..], parts);
    }
  }

  function Indices(n: nat): (s: seq<nat>)
    ensures |s| == n && forall i :: 0 <= i < n ==> s[i] == i
  {
    seq(n, i => i)
  }

  lemma {:induction false} PickedAll(parts: seq<seq<int>>, k: nat)
    requires k <= |parts|
    ensures Picked(Indices(|parts|)[k..], parts) == SumOfSums(parts[k..])
    decreases |parts| - k
  {
    if k < |parts| {
      PickedAll(parts, k + 1);
      assert Indices(|parts|)[k..][1..] == Indices(|parts|)[k + 1..];
      assert parts[k..][1..] == parts[k + 1..];
    }
  }

  lemma SameIndicesInRange(a: seq<nat>, b: seq<nat>, n: nat)
    requires multiset(a) == multiset(b) && InRange(b, n)
    ensures InRange(a, n)
  {
    forall k | 0 <= k < |a| ensures a[k] < n {
      assert a[k] in multiset(b);
    }
  }

  /** Cut into chunks of any size and combined in any order and grouping, the sum is the plain sum. */
  lemma ParallelSumIsSequential(data: seq<int>, size: nat, t: Reduction)
    requires size > 0 && multiset(Parts(t)) == multiset(Indices(|Chunks(data, size)|))
    ensures InRange(Parts(t), |Chunks(data, size)|)
    ensures Wrap(Reduced(t, Chunks(data, size))) == SequentialSum(data)
  {
    var parts := Chunks(data, size);
    SameIndicesInRange(Parts(t), Indices(|parts|), |parts|);
    ReducedIsPicked(t, parts);
    PickedPermuted(Parts(t), Indices(|parts|), parts);
    PickedAll(parts, 0);
    assert Indices(|parts|)[0..] == Indices(|parts|) && parts[0..] == parts;
    ChunksSum(data, size);
    CongruentWraps(Reduced(t, parts), Sum(data));
    SequentialIsWrapped(data);
  }
}
