/** Cutting an array at the chunk boundaries of a chunked array, under the union of their masks. */
module AlignedChunks {
  import opened Options
  import opened Errors
  import opened Bitmasks
  import opened Columns
  import opened MaskedArrays
  import opened Sequences

  predicate AllValid<T>(chunks: seq<Col<T>>) {
    forall k :: 0 <= k < |chunks| ==> chunks[k].Valid()
  }

  function TotalLen<T>(chunks: seq<Col<T>>): nat {
    if chunks == [] then 0 else TotalLen(chunks[..|chunks| - 1]) + |chunks[|chunks| - 1].values|
  }

  function AllValues<T>(chunks: seq<Col<T>>): seq<T> {
    Concat(seq(|chunks|, k requires 0 <= k < |chunks| => chunks[k].values))
  }

  function AllRows<T>(chunks: seq<Col<T>>): seq<Option<T>>
    requires AllValid(chunks)
  {
    Concat(seq(|chunks|, k requires 0 <= k < |chunks| => chunks[k].Rows()))
  }

  /** The chunks' masks read in order, a chunk without one reading as all valid. */
  function AllBits<T>(chunks: seq<Col<T>>): seq<bool>
    requires AllValid(chunks)
  {
    Concat(seq(|chunks|, k requires 0 <= k < |chunks| => MaskOrFull(chunks[k].mask, |chunks[k].values|)))
  }

  /** What one more chunk adds. */
  lemma OneMoreChunk<T>(chunks: seq<Col<T>>, c: Col<T>)
    requires AllValid(chunks) && c.Valid()
    ensures AllValid(chunks + [c])
    ensures AllValues(chunks + [c]) == AllValues(chunks) + c.values
    ensures AllRows(chunks + [c]) == AllRows(chunks) + c.Rows()
    ensures AllBits(chunks + [c]) == AllBits(chunks) + MaskOrFull(c.mask, |c.values|)
  {
    var n, more := |chunks|, chunks + [c];
    assert AllValid(more);
    var values := seq(n, k requires 0 <= k < n => chunks[k].values);
    ConcatMore(values, c.values);
    assert seq(n + 1, k requires 0 <= k < n + 1 => more[k].values) == values + [c.values];
    var rows := seq(n, k requires 0 <= k < n => chunks[k].Rows());
    ConcatMore(rows, c.Rows());
    assert seq(n + 1, k requires 0 <= k < n + 1 => more[k].Rows()) == rows + [c.Rows()];
    var bits := seq(n, k requires 0 <= k < n => MaskOrFull(chunks[k].mask, |chunks[k].values|));
    ConcatMore(bits, MaskOrFull(c.mask, |c.values|));
    assert seq(n + 1, k requires 0 <= k < n + 1 => MaskOrFull(more[k].mask, |more[k].values|)) ==
           bits + [MaskOrFull(c.mask, |c.values|)];
  }

  lemma {:induction false} AllBitsLength<T>(chunks: seq<Col<T>>)
    requires AllValid(chunks)
    ensures |AllBits(chunks)| == TotalLen(chunks)
    decreases |chunks|
  {
    if chunks != [] {
      var init := chunks[..|chunks| - 1];
      AllBitsLength(init);
      OneMoreChunk(init, chunks[|chunks| - 1]);
      assert chunks == init + [chunks[|chunks| - 1]];
    }
  }

  predicate AnyMask<T>(chunks: seq<Col<T>>) {
    exists k :: 0 <= k < |chunks| && chunks[k].mask.Some?
  }

  /** The chunked array's mask as a whole, absent when no chunk has one. */
  function WholeMask<T>(chunks: seq<Col<T>>): (m: Option<seq<bool>>)
    requires AllValid(chunks)
    ensures m.Some? <==> exists k :: 0 <= k < |chunks| && chunks[k].mask.Some?
    ensures m.Some? ==> |m.value| == TotalLen(chunks)
  {
    AllBitsLength(chunks);
    if AnyMask(chunks) then Some(AllBits(chunks)) else None
  }

  /** Where a chunk's rows start in the whole. */
  lemma {:induction false} ChunkStarts<T>(chunks: seq<Col<T>>, k: nat)
    requires k < |chunks|
    ensures TotalLen(chunks[..k]) + |chunks[k].values| <= TotalLen(chunks)
    decreases |chunks|
  {
    var init := chunks[..|chunks| - 1];
    if k < |init| {
      ChunkStarts(init, k);
      assert init[..k] == chunks[..k];
    }
  }

  /** The whole reads a chunk's values, rows and bits from where the chunk starts. */
  lemma {:induction false} ChunkReads<T>(chunks: seq<Col<T>>, k: nat, i: nat)
    requires AllValid(chunks) && k < |chunks| && i < |chunks[k].values|
    ensures var at := TotalLen(chunks[..k]) + i;
            at < TotalLen(chunks) == |AllValues(chunks)| == |AllBits(chunks)| == |AllRows(chunks)|
            && AllValues(chunks)[at] == chunks[k].values[i]
            && AllBits(chunks)[at] == (chunks[k].mask.None? || chunks[k].mask.value[i])
            && AllRows(chunks)[at] == chunks[k].Rows()[i]
    decreases |chunks|
  {
    var init, last := chunks[..|chunks| - 1], chunks[|chunks| - 1];
    assert chunks == init + [last];
    OneMoreChunk(init, last);
    WholeLengths(init);
    if k < |init| {
      ChunkReads(init, k, i);
      assert init[..k] == chunks[..k];
    }
  }

  lemma {:induction false} WholeLengths<T>(chunks: seq<Col<T>>)
    requires AllValid(chunks)
    ensures |AllValues(chunks)| == |AllBits(chunks)| == |AllRows(chunks)| == TotalLen(chunks)
    decreases |chunks|
  {
    if chunks != [] {
      var init, last := chunks[..|chunks| - 1], chunks[|chunks| - 1];
      WholeLengths(init);
      OneMoreChunk(init, last);
      assert chunks == init + [last];
    }
  }

  /** The united bit for row `i` of chunk `k`: set where the array's mask is, and where the chunk's is; a chunk
      without a mask counts as set once another has one. */
  ghost predicate UnitedBit<T>(bit: bool, arr: Col<T>, chunks: seq<Col<T>>, k: nat, i: nat)
    requires arr.Valid() && AllValid(chunks) && k < |chunks| && i < |chunks[k].values|
    requires TotalLen(chunks[..k]) + i < |arr.values|
  {
    bit <==> (arr.mask.Some? && arr.mask.value[TotalLen(chunks[..k]) + i])
             || (chunks[k].mask.Some? && chunks[k].mask.value[i])
             || (chunks[k].mask.None? && exists j :: 0 <= j < |chunks| && chunks[j].mask.Some?)
  }

  /** The mask holds the united bit for row `i` of chunk `k`. */
  ghost predicate UnitedAt<T>(mask: seq<bool>, arr: Col<T>, chunks: seq<Col<T>>, k: nat, i: nat)
    requires arr.Valid() && AllValid(chunks) && |mask| == |arr.values| && k < |chunks| && i < |chunks[k].values|
  {
    TotalLen(chunks[..k]) + i < |arr.values| && UnitedBit(mask[TotalLen(chunks[..k]) + i], arr, chunks, k, i)
  }

  lemma UnionReads<T>(arr: Col<T>, chunks: seq<Col<T>>, k: nat, i: nat)
    requires arr.Valid() && AllValid(chunks) && |arr.values| == TotalLen(chunks)
    requires k < |chunks| && i < |chunks[k].values| && UnionMask(arr.mask, WholeMask(chunks)).Some?
    ensures UnitedAt(UnionMask(arr.mask, WholeMask(chunks)).value, arr, chunks, k, i)
  {
    ChunkReads(chunks, k, i);
  }

  lemma UnionReadsAll<T>(arr: Col<T>, chunks: seq<Col<T>>)
    requires arr.Valid() && AllValid(chunks) && |arr.values| == TotalLen(chunks)
    requires UnionMask(arr.mask, WholeMask(chunks)).Some?
    ensures forall k, i :: 0 <= k < |chunks| && 0 <= i < |chunks[k].values| ==>
              UnitedAt(UnionMask(arr.mask, WholeMask(chunks)).value, arr, chunks, k, i)
  {
    forall k, i | 0 <= k < |chunks| && 0 <= i < |chunks[k].values|
      ensures UnitedAt(UnionMask(arr.mask, WholeMask(chunks)).value, arr, chunks, k, i)
    {
      UnionReads(arr, chunks, k, i);
    }
  }

  /** `Bitmask::union_opt`: an absent mask leaves the other as it is. */
  function UnionMask(a: Option<seq<bool>>, b: Option<seq<bool>>): (m: Option<seq<bool>>)
    requires a.Some? && b.Some? ==> |a.value| == |b.value|
    ensures m.Some? <==> a.Some? || b.Some?
    ensures m.Some? && a.Some? ==> |m.value| == |a.value|
    ensures m.Some? && b.Some? ==> |m.value| == |b.value|
    ensures m.Some? ==> forall i :: 0 <= i < |m.value| ==>
              m.value[i] == ((a.Some? && a.value[i]) || (b.Some? && b.value[i]))
  {
    if a.Some? && b.Some? then
      Some(EitherBits(a.value, b.value))
    else if a.Some? then a else b
  }

  /** The union of packed masks, each of which may be absent. */
  method UnionOpt(a: Bitmask?, b: Bitmask?) returns (out: Bitmask?)
    requires (a != null ==> a.Valid()) && (b != null ==> b.Valid())
    requires a != null && b != null ==> a.len == b.len
    ensures out != null ==> fresh(out) && out.Valid()
    ensures OptBits(out) == UnionMask(OptBits(a), OptBits(b))
  {
    if a != null && b != null {
      out := a.Union(b);
    } else if a != null {
      out := new Bitmask.Wrap(a.bits, a.len);
    } else if b != null {
      out := new Bitmask.Wrap(b.bits, b.len);
    } else {
      out := null;
    }
  }

  ghost function OptBits(m: Bitmask?): (bits: Option<seq<bool>>)
    requires m != null ==> m.Valid()
    reads m
  {
    if m == null then None else Some(m.Bits())
  }

  /** Joins the chunk masks in a loop and unites them with the array's mask. */
  method UnionArraySuperArrayMasks<T>(arr: Col<T>, chunks: seq<Col<T>>)
    returns (r: Result<Option<seq<bool>>, MinarrowError>)
    requires arr.Valid() && AllValid(chunks)
    ensures r.Err? <==> arr.mask.Some? && AnyMask(chunks) && |arr.values| != TotalLen(chunks)
    ensures r == if r.Err? then Err(ShapeError) else Ok(UnionMask(arr.mask, WholeMask(chunks)))
    ensures r.Ok? ==> (r.value.Some? <==> arr.mask.Some? || exists k :: 0 <= k < |chunks| && chunks[k].mask.Some?)
    ensures r.Ok? && r.value.Some? && |arr.values| == TotalLen(chunks) ==>
              |r.value.value| == |arr.values|
              && forall k, i :: 0 <= k < |chunks| && 0 <= i < |chunks[k].values| ==>
                   UnitedAt(r.value.value, arr, chunks, k, i)
  {
    var whole: Option<seq<bool>> := None;
    if AnyMask(chunks) {
      var bits: seq<bool> := [];
      for i := 0 to |chunks|
        invariant AllValid(chunks[..i]) && bits == AllBits(chunks[..i])
      {
        var c := chunks[i];
        if c.mask.Some? {
          bits := bits + c.mask.value;
        } else {
          bits := bits + AllSet(|c.values|);
        }
        OneMoreChunk(chunks[..i], c);
        assert chunks[..i + 1] == chunks[..i] + [c];
      }
      assert chunks[..|chunks|] == chunks;
      AllBitsLength(chunks);
      whole := Some(bits);
    }
    if arr.mask.Some? && whole.Some? && |arr.mask.value| != |whole.value| {
      return Err(ShapeError);
    }
    r := Ok(UnionMask(arr.mask, whole));
    if |arr.values| == TotalLen(chunks) && r.value.Some? {
      UnionReadsAll(arr, chunks);
    }
  }

  /** The slice `[start, start + n)` of the array under the full mask. */
  function Piece<T>(arr: Col<T>, mask: Option<seq<bool>>, start: nat, n: nat): (c: Col<T>)
    requires start + n <= |arr.values| && (mask.Some? ==> |mask.value| == |arr.values|)
    ensures c.Valid() && |c.values| == n
  {
    Col(arr.values[start..start + n], if mask.Some? then Some(mask.value[start..start + n]) else None)
  }

  /** The pieces have the chunks' lengths, and all of them have a mask or none has. */
  ghost predicate SameShape<T>(out: seq<Col<T>>, chunks: seq<Col<T>>, masked: bool) {
    |out| == |chunks|
    && forall k :: 0 <= k < |out| ==> |out[k].values| == |chunks[k].values| && out[k].mask.Some? == masked
  }

  /** Read in order, the pieces give the first `n` values, mask bits and rows. */
  ghost predicate SpellsOut<T>(out: seq<Col<T>>, values: seq<T>, mask: Option<seq<bool>>, n: nat)
    requires n <= |values| && (mask.Some? ==> |mask.value| == |values|)
  {
    AllValid(out)
    && AllValues(out) == values[..n]
    && AllBits(out) == MaskOrFull(mask, |values|)[..n]
    && AllRows(out) == RowsOf(values, mask)[..n]
  }

  /** The first `i` chunks' worth of the array has been cut. */
  ghost predicate CutTo<T>(out: seq<Col<T>>, arr: Col<T>, mask: Option<seq<bool>>, chunks: seq<Col<T>>,
                           i: nat, start: nat)
    requires i <= |chunks| && (mask.Some? ==> |mask.value| == |arr.values|)
  {
    start == TotalLen(chunks[..i]) <= |arr.values|
    && SameShape(out, chunks[..i], mask.Some?) && SpellsOut(out, arr.values, mask, start)
  }

  /** Cuts the array at the chunk boundaries. It fails exactly when the total lengths differ, so the
      bounds error of the cutting loop is never returned. */
  method CreateAlignedChunks<T>(arr: Col<T>, chunks: seq<Col<T>>) returns (r: Result<seq<Col<T>>, MinarrowError>)
    requires arr.Valid() && AllValid(chunks) && (|chunks| > 0 || |arr.values| > 0)
    ensures r.Err? <==> |arr.values| != TotalLen(chunks)
    ensures r.Err? ==> r.error == ShapeError
    ensures r.Ok? ==> var mask := UnionMask(arr.mask, WholeMask(chunks));
              SameShape(r.value, chunks, mask.Some?) && SpellsOut(r.value, arr.values, mask, |arr.values|)
    ensures r.Ok? ==>
              |r.value| == |chunks|
              && forall k, i :: 0 <= k < |chunks| && 0 <= i < |chunks[k].values| ==>
                   AlignedRow(r.value[k], arr, chunks, k, i)
  {
    if |arr.values| != TotalLen(chunks) {
      return Err(ShapeError);
    }
    var union := UnionArraySuperArrayMasks(arr, chunks);
    r := CutChunks(arr, union.value, chunks);
    PiecesAligned(r.value, arr, chunks);
  }

  /** Row `i` of piece `k` is the array's row at that place of chunk `k`, under the united bit; there are masks
      exactly when the array or some chunk has one. */
  ghost predicate AlignedRow<T>(piece: Col<T>, arr: Col<T>, chunks: seq<Col<T>>, k: nat, i: nat)
    requires arr.Valid() && AllValid(chunks) && k < |chunks| && i < |chunks[k].values|
  {
    piece.Valid() && i < |piece.values| == |chunks[k].values| && TotalLen(chunks[..k]) + i < |arr.values|
    && piece.values[i] == arr.values[TotalLen(chunks[..k]) + i]
    && (piece.mask.Some? <==> arr.mask.Some? || exists j :: 0 <= j < |chunks| && chunks[j].mask.Some?)
    && (piece.mask.Some? ==> UnitedBit(piece.mask.value[i], arr, chunks, k, i))
  }

  lemma PiecesAligned<T>(out: seq<Col<T>>, arr: Col<T>, chunks: seq<Col<T>>)
    requires arr.Valid() && AllValid(chunks) && |arr.values| == TotalLen(chunks)
    requires var mask := UnionMask(arr.mask, WholeMask(chunks));
             SameShape(out, chunks, mask.Some?) && SpellsOut(out, arr.values, mask, |arr.values|)
    ensures forall k, i :: 0 <= k < |chunks| && 0 <= i < |chunks[k].values| ==> AlignedRow(out[k], arr, chunks, k, i)
  {
    forall k, i | 0 <= k < |chunks| && 0 <= i < |chunks[k].values| ensures AlignedRow(out[k], arr, chunks, k, i) {
      PieceAligned(out, arr, chunks, k, i);
    }
  }

  lemma PieceAligned<T>(out: seq<Col<T>>, arr: Col<T>, chunks: seq<Col<T>>, k: nat, i: nat)
    requires arr.Valid() && AllValid(chunks) && |arr.values| == TotalLen(chunks)
    requires var mask := UnionMask(arr.mask, WholeMask(chunks));
             SameShape(out, chunks, mask.Some?) && SpellsOut(out, arr.values, mask, |arr.values|)
    requires k < |chunks| && i < |chunks[k].values|
    ensures AlignedRow(out[k], arr, chunks, k, i)
  {
    SameStarts(out, chunks, k);
    ChunkReads(out, k, i);
    ChunkReads(chunks, k, i);
    if out[k].mask.Some? {
      UnionReads(arr, chunks, k, i);
    }
  }

  /** Pieces of the chunks' lengths start where the chunks do. */
  lemma {:induction false} SameStarts<T>(out: seq<Col<T>>, chunks: seq<Col<T>>, k: nat)
    requires |out| == |chunks| && k <= |out|
    requires forall j :: 0 <= j < |out| ==> |out[j].values| == |chunks[j].values|
    ensures TotalLen(out[..k]) == TotalLen(chunks[..k])
    decreases k
  {
    if k > 0 {
      SameStarts(out, chunks, k - 1);
      assert out[..k][..k - 1] == out[..k - 1] && chunks[..k][..k - 1] == chunks[..k - 1];
    }
  }

  /** The cutting loop. */
  method CutChunks<T>(arr: Col<T>, fullMask: Option<seq<bool>>, chunks: seq<Col<T>>)
    returns (r: Result<seq<Col<T>>, MinarrowError>)
    requires |arr.values| == TotalLen(chunks) && arr.Valid()
    requires (fullMask.Some? ==> |fullMask.value| == |arr.values|) && (arr.mask.Some? ==> fullMask.Some?)
    ensures r.Ok? && SameShape(r.value, chunks, fullMask.Some?)
    ensures SpellsOut(r.value, arr.values, fullMask, |arr.values|)
  {
    var out: seq<Col<T>> := [];
    var start: nat, maskStart: nat := 0, 0;
    for i := 0 to |chunks|
      invariant CutTo(out, arr, fullMask, chunks, i, start) && (fullMask.Some? ==> maskStart == start)
    {
      var n := |chunks[i].values|;
      CutNext(out, arr, fullMask, chunks, i, start);
      var end := start + n;
      if end > |arr.values| {
        return Err(ShapeError);
      }
      var chunk;
      chunk, maskStart := CutPiece(arr, fullMask, start, maskStart, n);
      out := out + [chunk];
      start := end;
    }
    assert chunks[..|chunks|] == chunks;
    return Ok(out);
  }

  /** One piece, which takes its bits from the full mask and moves the mask position along when there is one. */
  method CutPiece<T>(arr: Col<T>, fullMask: Option<seq<bool>>, start: nat, maskStart: nat, n: nat)
    returns (chunk: Col<T>, maskEnd: nat)
    requires start + n <= |arr.values| && arr.Valid() && (arr.mask.Some? ==> fullMask.Some?)
    requires fullMask.Some? ==> |fullMask.value| == |arr.values| && maskStart == start
    ensures chunk == Piece(arr, fullMask, start, n) && maskEnd == if fullMask.Some? then start + n else maskStart
  {
    chunk, maskEnd := Piece(arr, arr.mask, start, n), maskStart;
    if fullMask.Some? {
      maskEnd := maskStart + n;
      chunk := Col(chunk.values, Some(fullMask.value[maskStart..maskEnd]));
    }
  }

  lemma CutNext<T>(out: seq<Col<T>>, arr: Col<T>, mask: Option<seq<bool>>, chunks: seq<Col<T>>, i: nat, start: nat)
    requires i < |chunks| && (mask.Some? ==> |mask.value| == |arr.values|) && |arr.values| == TotalLen(chunks)
    requires CutTo(out, arr, mask, chunks, i, start)
    ensures start + |chunks[i].values| <= |arr.values|
    ensures CutTo(out + [Piece(arr, mask, start, |chunks[i].values|)], arr, mask, chunks,
                  i + 1, start + |chunks[i].values|)
  {
    TotalLenPrefix(chunks, i);
    var n, chunk := |chunks[i].values|, Piece(arr, mask, start, |chunks[i].values|);
    assert SpellsOut(out + [chunk], arr.values, mask, start + n) by { PieceAppends(arr, mask, start, n, out); }
    assert SameShape(out + [chunk], chunks[..i + 1], mask.Some?) by { ShapeGrows(out, chunks, i, chunk, mask.Some?); }
  }

  lemma {:induction false} TotalLenPrefix<T>(chunks: seq<Col<T>>, i: nat)
    requires i < |chunks|
    ensures TotalLen(chunks[..i + 1]) == TotalLen(chunks[..i]) + |chunks[i].values|
    ensures TotalLen(chunks[..i + 1]) <= TotalLen(chunks)
    decreases |chunks|
  {
    assert chunks[..i + 1][..i] == chunks[..i];
    if i + 1 < |chunks| {
      TotalLenPrefix(chunks[..|chunks| - 1], i);
      assert chunks[..|chunks| - 1][..i + 1] == chunks[..i + 1];
    } else {
      assert chunks[..i + 1] == chunks;
    }
  }

  /** One more piece extends what the pieces say together. */
  lemma PieceAppends<T>(arr: Col<T>, mask: Option<seq<bool>>, start: nat, n: nat, out: seq<Col<T>>)
    requires start + n <= |arr.values| && (mask.Some? ==> |mask.value| == |arr.values|)
    requires SpellsOut(out, arr.values, mask, start)
    ensures SpellsOut(out + [Piece(arr, mask, start, n)], arr.values, mask, start + n)
  {
    var values, chunk := arr.values, Piece(arr, mask, start, n);
    OneMoreChunk(out, chunk);
    assert MaskOrFull(chunk.mask, n) == MaskOrFull(mask, |values|)[start..start + n];
    assert chunk.Rows() == RowsOf(values, mask)[start..start + n];
    PrefixGrows(values, start, n);
    PrefixGrows(MaskOrFull(mask, |values|), start, n);
    PrefixGrows(RowsOf(values, mask), start, n);
  }

  lemma ShapeGrows<T>(out: seq<Col<T>>, chunks: seq<Col<T>>, i: nat, chunk: Col<T>, masked: bool)
    requires i < |chunks| && SameShape(out, chunks[..i], masked)
    requires |chunk.values| == |chunks[i].values| && chunk.mask.Some? == masked
    ensures SameShape(out + [chunk], chunks[..i + 1], masked)
  {}

  lemma PrefixGrows<T>(s: seq<T>, start: nat, n: nat)
    requires start + n <= |s|
    ensures s[..start] + s[start..start + n] == s[..start + n]
  {}
}
