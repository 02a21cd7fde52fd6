/** Consolidating a table's batches, column by column, by repeated appends. */
module Consolidation {
  import opened Options
  import opened MaskedArrays
  import opened Sequences

  /** The batches are valid and hold these rows. */
  ghost predicate Hold<T>(batches: seq<MaskedArray<T>>, rows: seq<seq<Option<T>>>)
    requires |rows| == |batches|
    reads batches, set b | b in batches :: b.nullMask
  {
    forall k :: 0 <= k < |batches| ==> batches[k].Valid() && batches[k].Rows() == rows[k]
  }

  /** Clones the first batch and appends the others in order, whichever of them join without copying. */
  method ConsolidateColumn<T>(batches: seq<MaskedArray<T>>, ghost rows: seq<seq<Option<T>>>)
    returns (arr: MaskedArray<T>)
    requires |rows| == |batches| > 0 && Hold(batches, rows)
    ensures fresh(arr) && (arr.nullMask != null ==> fresh(arr.nullMask)) && Holds(arr, Concat(rows))
  {
    arr := FirstBatch(batches, rows);
    for i := 1 to |batches|
      invariant fresh(arr) && (arr.nullMask != null ==> fresh(arr.nullMask))
      invariant Holds(arr, Concat(rows[..i]))
    {
      assert Hold(batches, rows);
      AppendBatch(arr, batches[i], rows, i);
    }
    assert rows[..|batches|] == rows;
  }

  /** The array is valid and holds these rows. */
  ghost predicate Holds<T>(arr: MaskedArray<T>, rows: seq<Option<T>>)
    reads arr, arr.nullMask
  {
    arr.Valid() && arr.Rows() == rows
  }

  method FirstBatch<T>(batches: seq<MaskedArray<T>>, ghost rows: seq<seq<Option<T>>>) returns (arr: MaskedArray<T>)
    requires |rows| == |batches| > 0 && Hold(batches, rows)
    ensures fresh(arr) && (arr.nullMask != null ==> fresh(arr.nullMask)) && Holds(arr, Concat(rows[..1]))
  {
    arr := batches[0].Clone();
    ConcatPrefix(rows, 0);
  }

  /** One step of the fold. */
  method AppendBatch<T>(arr: MaskedArray<T>, batch: MaskedArray<T>, ghost rows: seq<seq<Option<T>>>, ghost i: nat)
    requires i < |rows| && Holds(arr, Concat(rows[..i])) && Holds(batch, rows[i]) && arr.Apart(batch)
    modifies arr, arr.nullMask
    ensures arr.nullMask == null || arr.nullMask == old(arr.nullMask) || fresh(arr.nullMask)
    ensures Holds(arr, Concat(rows[..i + 1]))
  {
    ConcatPrefix(rows, i);
    arr.AppendArray(batch);
  }

  /** One column of every batch, in order. */
  function Column<T>(batches: seq<seq<MaskedArray<T>>>, c: nat): (column: seq<MaskedArray<T>>)
    requires forall b :: 0 <= b < |batches| ==> c < |batches[b]|
    ensures |column| == |batches| && forall b :: 0 <= b < |batches| ==> column[b] == batches[b][c]
  {
    seq(|batches|, b requires 0 <= b < |batches| => batches[b][c])
  }

  /** Every column of the batches holds its rows. */
  ghost predicate AllHold<T>(batches: seq<seq<MaskedArray<T>>>, rows: seq<seq<seq<Option<T>>>>)
    reads set b, k | 0 <= b < |batches| && 0 <= k < |batches[b]| :: batches[b][k]
    reads set b, k | 0 <= b < |batches| && 0 <= k < |batches[b]| :: batches[b][k].nullMask
  {
    (forall b :: 0 <= b < |batches| ==> |rows| <= |batches[b]|)
    && forall c :: 0 <= c < |rows| ==> |rows[c]| == |batches| && Hold(Column(batches, c), rows[c])
  }

  /** The consolidated columns hold their batches' rows one after another. */
  ghost predicate Joined<T>(cols: seq<MaskedArray<T>>, rows: seq<seq<seq<Option<T>>>>)
    requires |cols| <= |rows|
    reads cols, set a | a in cols :: a.nullMask
  {
    forall k :: 0 <= k < |cols| ==> Holds(cols[k], Concat(rows[k]))
  }

  /** Each count is that of the nulls in its column. */
  ghost predicate Counted<T>(nullCounts: seq<nat>, rows: seq<seq<seq<Option<T>>>>) {
    |nullCounts| <= |rows| && forall k :: 0 <= k < |nullCounts| ==> nullCounts[k] == NullRows(Concat(rows[k]))
  }

  /** Consolidates every column into new arrays, each the rows of its batches one after another, and counts its
      nulls. Columns of different types take a sum type for `T`. */
  method ConsolidateTable<T>(batches: seq<seq<MaskedArray<T>>>, nCols: nat, ghost rows: seq<seq<seq<Option<T>>>>)
    returns (cols: seq<MaskedArray<T>>, nullCounts: seq<nat>)
    requires |batches| > 0 && |rows| == nCols && AllHold(batches, rows)
    ensures |cols| == |nullCounts| == nCols && Joined(cols, rows) && Counted(nullCounts, rows)
    ensures fresh(cols)
  {
    cols, nullCounts := [], [];
    for c := 0 to nCols
      invariant |cols| == |nullCounts| == c && Joined(cols, rows) && Counted(nullCounts, rows) && fresh(cols)
    {
      assert AllHold(batches, rows);
      var arr, nullCount := ConsolidateNext(batches, cols, nullCounts, rows);
      cols, nullCounts := cols + [arr], nullCounts + [nullCount];
    }
  }

  lemma ColumnHolds<T>(batches: seq<seq<MaskedArray<T>>>, c: nat, rows: seq<seq<seq<Option<T>>>>)
    requires AllHold(batches, rows) && c < |rows|
    ensures forall b :: 0 <= b < |batches| ==> c < |batches[b]|
    ensures |rows[c]| == |batches| && Hold(Column(batches, c), rows[c])
  {}

  lemma CountedMore<T>(nullCounts: seq<nat>, n: nat, rows: seq<seq<seq<Option<T>>>>)
    requires |nullCounts| < |rows| && Counted(nullCounts, rows) && n == NullRows(Concat(rows[|nullCounts|]))
    ensures Counted(nullCounts + [n], rows)
  {}

  lemma JoinedMore<T>(cols: seq<MaskedArray<T>>, arr: MaskedArray<T>, rows: seq<seq<seq<Option<T>>>>)
    requires |cols| < |rows| && Joined(cols, rows) && Holds(arr, Concat(rows[|cols|]))
    ensures Joined(cols + [arr], rows)
  {}

  method ConsolidateNth<T>(batches: seq<seq<MaskedArray<T>>>, c: nat, ghost rows: seq<seq<seq<Option<T>>>>)
    returns (arr: MaskedArray<T>, nullCount: nat)
    requires |batches| > 0 && AllHold(batches, rows) && c < |rows|
    ensures fresh(arr) && Holds(arr, Concat(rows[c])) && AllHold(batches, rows)
    ensures nullCount == NullRows(Concat(rows[c]))
  {
    ColumnHolds(batches, c, rows);
    arr := ConsolidateColumn(Column(batches, c), rows[c]);
    nullCount := arr.NullCount();
  }

  /** The next column and its null count. */
  method ConsolidateNext<T>(batches: seq<seq<MaskedArray<T>>>, cols: seq<MaskedArray<T>>, ghost nullCounts: seq<nat>,
      ghost rows: seq<seq<seq<Option<T>>>>) returns (arr: MaskedArray<T>, nullCount: nat)
    requires |cols| == |nullCounts| < |rows| && |batches| > 0
    requires AllHold(batches, rows) && Joined(cols, rows) && Counted(nullCounts, rows)
    ensures fresh(arr) && Joined(cols + [arr], rows) && Counted(nullCounts + [nullCount], rows)
  {
    arr, nullCount := ConsolidateNth(batches, |cols|, rows);
    JoinedMore(cols, arr, rows);
    CountedMore(nullCounts, nullCount, rows);
  }
}
