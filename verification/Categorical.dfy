/** String windows to categorical arrays and back. */
module Categoricals {
  import opened Words
  import opened Options
  import opened Errors
  import opened Utf8
  import opened DictKeys
  import opened Dictionaries

  const USIZE_SPACE := 0x1_0000_0000_0000_0000
  const MAX_BYTES := 0x7FFF_FFFF_FFFF_FFFF

  type Mask = Option<seq<bool>>

  /** Row `i` is `data[offsets[i]..offsets[i + 1]]`. Offsets are whatever the buffer holds. */
  datatype StringArray = StringArray(offsets: seq<nat>, data: Bytes, mask: Mask) {
    function Len(): nat {
      if offsets == [] then 0 else |offsets| - 1
    }

    predicate Sliceable(i: nat)
      requires i < Len()
    {
      offsets[i] <= offsets[i + 1] <= |data|
    }

    predicate IsText(i: nat)
      requires i < Len()
    {
      Sliceable(i) && ValidUtf8(data[offsets[i]..offsets[i + 1]])
    }

    function TextOf(i: nat): Bytes
      requires i < Len() && IsText(i)
    {
      data[offsets[i]..offsets[i + 1]]
    }

    /** What Rust guarantees of the buffers, and the mask's length. */
    ghost predicate Valid() {
      (forall i :: 0 <= i < |offsets| ==> offsets[i] < USIZE_SPACE)
      && |data| <= MAX_BYTES
      && (mask.Some? ==> |mask.value| == Len())
    }
  }

  datatype Categorical = Categorical(codes: seq<nat>, uniq: seq<Bytes>, mask: Mask)

  // ----- reading the rows of a window -----

  /** The window's bytes as text, when they are in bounds and valid as a whole. */
  function WindowText(src: StringArray, offset: nat, len: nat): (text: Option<(nat, Bytes)>)
    requires offset + len <= src.Len()
  {
    if len == 0 then None
    else
      var lo, hi := src.offsets[offset], src.offsets[offset + len];
      if lo <= hi <= |src.data| && ValidUtf8(src.data[lo..hi]) then Some((lo, src.data[lo..hi])) else None
  }

  function WrappingSub(a: nat, b: nat): nat {
    (a - b) % 0x1_0000_0000_0000_0000
  }

  /** `str::get` on a byte range. */
  function GetStr(text: Bytes, start: nat, end: nat): Option<Bytes> {
    if start <= end <= |text| && Boundary(text, start) && Boundary(text, end) then Some(text[start..end]) else None
  }

  /** One row sliced and validated by itself. */
  function SlowRow(data: Bytes, start: nat, end: nat): Outcome<Bytes> {
    if start > end || end > |data| then Panicked
    else if ValidUtf8(data[start..end]) then Done(data[start..end])
    else Failed(TypeError)
  }

  function FromText(text: Option<(nat, Bytes)>, start: nat, end: nat): Option<Bytes> {
    if text.None? then None
    else GetStr(text.value.1, WrappingSub(start, text.value.0), WrappingSub(end, text.value.0))
  }

  /** One row as the conversion reads it: from the window's text when possible, else by itself. */
  function FastRow(src: StringArray, text: Option<(nat, Bytes)>, start: nat, end: nat): Outcome<Bytes> {
    match FromText(text, start, end)
    case Some(row) => Done(row)
    case None => SlowRow(src.data, start, end)
  }

  /** Row `k` of the window, read by itself. */
  function Row(src: StringArray, offset: nat, k: nat): Outcome<Bytes>
    requires offset + k < src.Len()
  {
    SlowRow(src.data, src.offsets[offset + k], src.offsets[offset + k + 1])
  }

  /** The shortcut never changes a row, its error or its panic, whatever the offsets are. */
  lemma FastRowIsSlowRow(src: StringArray, offset: nat, len: nat, start: nat, end: nat)
    requires src.Valid() && offset + len <= src.Len() && start < USIZE_SPACE && end < USIZE_SPACE
    ensures FastRow(src, WindowText(src, offset, len), start, end) == SlowRow(src.data, start, end)
  {
    var text := WindowText(src, offset, len);
    if FromText(text, start, end).Some? {
      FromTextIsRow(src.data, text.value.0, src.offsets[offset + len], start, end);
    }
  }

  /** A row found in the text of `data[lo..hi]` is the slice `data[start..end]`, and valid. */
  lemma FromTextIsRow(data: Bytes, lo: nat, hi: nat, start: nat, end: nat)
    requires lo <= hi <= |data| <= MAX_BYTES && start < USIZE_SPACE && end < USIZE_SPACE && ValidUtf8(data[lo..hi])
    requires FromText(Some((lo, data[lo..hi])), start, end).Some?
    ensures lo <= start <= end <= hi && ValidUtf8(data[start..end])
    ensures FromText(Some((lo, data[lo..hi])), start, end) == Some(data[start..end])
  {
    WrapsPastText(start, lo, hi - lo);
    WrapsPastText(end, lo, hi - lo);
    BoundedSliceValid(data, lo, hi, start, end);
    SubSlice(data, lo, hi, start, end);
  }

  /** An offset before the window wraps round to a position past any text. */
  lemma WrapsPastText(a: nat, lo: nat, n: nat)
    requires a < USIZE_SPACE && lo + n <= MAX_BYTES
    ensures WrappingSub(a, lo) == if lo <= a then a - lo else a - lo + USIZE_SPACE
    ensures a < lo ==> WrappingSub(a, lo) > n
  {}

  lemma SubSlice(data: Bytes, lo: nat, hi: nat, start: nat, end: nat)
    requires lo <= start <= end <= hi <= |data|
    ensures data[lo..hi][start - lo..end - lo] == data[start..end]
  {
    var a, b := data[lo..hi][start - lo..end - lo], data[start..end];
    forall k | 0 <= k < end - start ensures a[k] == b[k] {
      assert a[k] == data[lo..hi][start - lo + k] == data[start + k];
    }
  }

  predicate Readable(src: StringArray, offset: nat, len: nat)
    requires offset + len <= src.Len()
  {
    forall k :: 0 <= k < len ==> Row(src, offset, k).Done?
  }

  function Rows(src: StringArray, offset: nat, len: nat): (rows: seq<Bytes>)
    requires offset + len <= src.Len() && Readable(src, offset, len)
    ensures |rows| == len && forall k :: 0 <= k < len ==> rows[k] == Row(src, offset, k).value
  {
    seq(len, k requires 0 <= k < len => Row(src, offset, k).value)
  }

  predicate MonotoneInBounds(src: StringArray, offset: nat, len: nat)
    requires offset + len < |src.offsets|
  {
    (forall i :: offset <= i < offset + len ==> src.offsets[i] <= src.offsets[i + 1])
    && src.offsets[offset + len] <= |src.data|
  }

  lemma {:induction false} MonotoneFrom(src: StringArray, offset: nat, i: nat, j: nat)
    requires offset <= i <= j < |src.offsets|
    requires forall k :: offset <= k < j ==> src.offsets[k] <= src.offsets[k + 1]
    ensures src.offsets[i] <= src.offsets[j]
    decreases j
  {
    if i < j { MonotoneFrom(src, offset, i, j - 1); }
  }

  /** The window's first and last offsets are ordered and in bounds. */
  predicate InSpan(src: StringArray, offset: nat, len: nat)
    requires offset + len < |src.offsets|
  {
    src.offsets[offset] <= src.offsets[offset + len] <= |src.data|
  }

  /** The window's bytes. */
  function Span(src: StringArray, offset: nat, len: nat): Bytes
    requires offset + len < |src.offsets| && InSpan(src, offset, len)
  {
    src.data[src.offsets[offset]..src.offsets[offset + len]]
  }

  /** Row `k` starts inside the window's bytes, on a character boundary. */
  predicate StartsOnBoundary(src: StringArray, offset: nat, len: nat, k: nat)
    requires offset + len < |src.offsets| && InSpan(src, offset, len) && k <= len
  {
    src.offsets[offset] <= src.offsets[offset + k] <= src.offsets[offset + len]
    && Boundary(Span(src, offset, len), src.offsets[offset + k] - src.offsets[offset])
  }

  /** Readable rows join to valid text. */
  lemma {:induction false} ReadableSpan(src: StringArray, offset: nat, len: nat)
    requires offset + len < |src.offsets| && Readable(src, offset, len)
    requires src.offsets[offset] <= |src.data|
    ensures InSpan(src, offset, len) && ValidUtf8(Span(src, offset, len))
    decreases len
  {
    if len > 0 {
      ReadableSpan(src, offset, len - 1);
      assert Row(src, offset, len - 1).Done?;
      SpanGrows(src, offset, len);
      JoinValid(Span(src, offset, len - 1), Row(src, offset, len - 1).value);
    }
  }

  /** Readable rows join to valid text, and their ends are boundaries of it. */
  lemma {:induction false} ReadableText(src: StringArray, offset: nat, len: nat)
    requires offset + len < |src.offsets| && Readable(src, offset, len)
    requires src.offsets[offset] <= |src.data|
    ensures InSpan(src, offset, len) && ValidUtf8(Span(src, offset, len))
    ensures forall k :: 0 <= k <= len ==> StartsOnBoundary(src, offset, len, k)
    decreases len
  {
    ReadableSpan(src, offset, len);
    if len > 0 {
      ReadableText(src, offset, len - 1);
      assert Row(src, offset, len - 1).Done?;
      SpanGrows(src, offset, len);
      forall k | 0 <= k < len ensures StartsOnBoundary(src, offset, len, k) {
        StillOnBoundary(src, offset, len, k);
      }
    }
  }

  lemma StillOnBoundary(src: StringArray, offset: nat, len: nat, k: nat)
    requires k < len && offset + len < |src.offsets| && InSpan(src, offset, len - 1) && InSpan(src, offset, len)
    requires Row(src, offset, len - 1).Done? && ValidUtf8(Row(src, offset, len - 1).value)
    requires Span(src, offset, len) == Span(src, offset, len - 1) + Row(src, offset, len - 1).value
    requires StartsOnBoundary(src, offset, len - 1, k)
    ensures StartsOnBoundary(src, offset, len, k)
  {
    BoundaryOfJoin(Span(src, offset, len - 1), Row(src, offset, len - 1).value,
                   src.offsets[offset + k] - src.offsets[offset]);
  }

  lemma SpanGrows(src: StringArray, offset: nat, len: nat)
    requires 0 < len && offset + len < |src.offsets| && InSpan(src, offset, len - 1)
    requires Row(src, offset, len - 1).Done?
    ensures InSpan(src, offset, len)
    ensures Span(src, offset, len) == Span(src, offset, len - 1) + Row(src, offset, len - 1).value
  {}

  lemma BoundaryOfJoin(a: Bytes, b: Bytes, i: nat)
    requires i <= |a| && Boundary(a, i) && ValidUtf8(b)
    ensures Boundary(a + b, i)
  {
    if i == |a| && b != [] {
      CharShape(b, 0);
      assert (a + b)[i] == b[0];
    } else if 0 < i < |a| {
      assert (a + b)[i] == a[i];
    }
  }

  /** When every row is readable, every row is read from the text. */
  lemma ReadableTakesFastPath(src: StringArray, offset: nat, len: nat, k: nat)
    requires src.Valid() && offset + len <= src.Len() && Readable(src, offset, len) && k < len
    ensures FromText(WindowText(src, offset, len), src.offsets[offset + k], src.offsets[offset + k + 1]).Some?
  {
    ReadableWindowText(src, offset, len);
    var lo, text := src.offsets[offset], Span(src, offset, len);
    assert StartsOnBoundary(src, offset, len, k) && StartsOnBoundary(src, offset, len, k + 1);
    assert Row(src, offset, k).Done?;
    TextHasRow(lo, text, src.offsets[offset + k], src.offsets[offset + k + 1]);
  }

  lemma ReadableWindowText(src: StringArray, offset: nat, len: nat)
    requires offset + len <= src.Len() && 0 < len && Readable(src, offset, len)
    ensures InSpan(src, offset, len)
    ensures WindowText(src, offset, len) == Some((src.offsets[offset], Span(src, offset, len)))
    ensures forall k :: 0 <= k <= len ==> StartsOnBoundary(src, offset, len, k)
  {
    assert Row(src, offset, 0).Done?;
    ReadableText(src, offset, len);
  }

  lemma TextHasRow(lo: nat, text: Bytes, start: nat, end: nat)
    requires lo <= start <= end <= lo + |text| <= MAX_BYTES
    requires Boundary(text, start - lo) && Boundary(text, end - lo)
    ensures FromText(Some((lo, text)), start, end) == Some(text[start - lo..end - lo])
  {
    WrapsPastText(start, lo, |text|);
    WrapsPastText(end, lo, |text|);
  }

  /** For ordered, in-bounds offsets: the rows are all readable exactly when the window is valid text
      and every row starts on a character boundary of it. */
  lemma ReadableExactlyWhen(src: StringArray, offset: nat, len: nat)
    requires src.Valid() && 0 < len && offset + len <= src.Len() && MonotoneInBounds(src, offset, len)
    ensures InSpan(src, offset, len)
    ensures Readable(src, offset, len)
       <==> ValidUtf8(Span(src, offset, len)) && forall k :: 0 <= k <= len ==> StartsOnBoundary(src, offset, len, k)
  {
    MonotoneFrom(src, offset, offset, offset + len);
    if Readable(src, offset, len) {
      ReadableText(src, offset, len);
    }
    if ValidUtf8(Span(src, offset, len)) && forall k :: 0 <= k <= len ==> StartsOnBoundary(src, offset, len, k) {
      forall k | 0 <= k < len ensures Row(src, offset, k).Done? {
        assert StartsOnBoundary(src, offset, len, k) && StartsOnBoundary(src, offset, len, k + 1);
        BoundedRowReadable(src, offset, len, k);
      }
    }
  }

  lemma BoundedRowReadable(src: StringArray, offset: nat, len: nat, k: nat)
    requires offset + len < |src.offsets| && InSpan(src, offset, len) && ValidUtf8(Span(src, offset, len)) && k < len
    requires StartsOnBoundary(src, offset, len, k) && StartsOnBoundary(src, offset, len, k + 1)
    requires src.offsets[offset + k] <= src.offsets[offset + k + 1]
    ensures Row(src, offset, k).Done?
  {
    BoundedSliceValid(src.data, src.offsets[offset], src.offsets[offset + len],
                      src.offsets[offset + k], src.offsets[offset + k + 1]);
  }

  lemma BoundedSliceValid(data: Bytes, lo: nat, hi: nat, start: nat, end: nat)
    requires lo <= start <= end <= hi <= |data| && ValidUtf8(data[lo..hi])
    requires Boundary(data[lo..hi], start - lo) && Boundary(data[lo..hi], end - lo)
    ensures ValidUtf8(data[start..end])
  {
    SliceAtBoundaries(data[lo..hi], start - lo, end - lo);
    SubSlice(data, lo, hi, start, end);
  }

  // ----- strings to categories -----

  /** The dictionary encoding of the window's first `k` rows, reading them one at a time: the first
      unreadable row ends it, and so does a new value when the index type has no code left. */
  function Convert(src: StringArray, offset: nat, k: nat, limit: nat): (r: Outcome<Encoding<Bytes>>)
    requires offset + k <= src.Len()
    decreases k
  {
    if k == 0 then Done(Encoding([], []))
    else match Convert(src, offset, k - 1, limit)
      case Done(e) =>
        (match Row(src, offset, k - 1)
         case Done(row) =>
           if row !in e.uniq && |e.uniq| >= limit then Panicked else Done(Extend(e, row))
         case Failed(error) => Failed(error)
         case Panicked => Panicked)
      case other => other
  }

  /** What converting the first `k` rows comes to. */
  ghost predicate Outcomes(src: StringArray, offset: nat, k: nat, limit: nat)
    requires offset + k <= src.Len()
  {
    var r := Convert(src, offset, k, limit);
    if Readable(src, offset, k) then r == EncodedWithin(Rows(src, offset, k), limit) else !r.Done?
  }

  /** The rows' encoding, unless their different values outnumber the codes. */
  ghost function EncodedWithin(rows: seq<Bytes>, limit: nat): Outcome<Encoding<Bytes>> {
    if |RowSet(rows)| <= limit then Done(Encode(rows)) else Panicked
  }

  lemma EncodedNext(rows: seq<Bytes>, row: Bytes, limit: nat)
    ensures EncodedWithin(rows + [row], limit) ==
            match EncodedWithin(rows, limit)
            case Done(e) => if row !in e.uniq && |e.uniq| >= limit then Panicked else Done(Extend(e, row))
            case other => other
  {
    var more := rows + [row];
    assert more[..|rows|] == rows;
    EncodeSize(rows);
    EncodeSize(more);
    assert Encode(more) == Extend(Encode(rows), row);
  }

  lemma RowsNext(src: StringArray, offset: nat, k: nat)
    requires k > 0 && offset + k <= src.Len() && Readable(src, offset, k)
    ensures Readable(src, offset, k - 1) && Row(src, offset, k - 1).Done?
    ensures Rows(src, offset, k) == Rows(src, offset, k - 1) + [Row(src, offset, k - 1).value]
  {
    assert Row(src, offset, k - 1).Done?;
  }

  /** The conversion succeeds exactly when every row is readable and the different values fit the index
      type; then it is the rows' encoding. Too many values panic, an unreadable row never succeeds. */
  lemma {:induction false} ConvertOutcome(src: StringArray, offset: nat, k: nat, limit: nat)
    requires offset + k <= src.Len()
    ensures Outcomes(src, offset, k, limit)
    decreases k
  {
    if k == 0 {
      assert Rows(src, offset, 0) == [] && RowSet<Bytes>([]) == {};
    } else {
      ConvertOutcome(src, offset, k - 1, limit);
      if Readable(src, offset, k) {
        RowsNext(src, offset, k);
        EncodedNext(Rows(src, offset, k - 1), Row(src, offset, k - 1).value, limit);
      } else if Readable(src, offset, k - 1) {
        assert !Row(src, offset, k - 1).Done?;
      }
    }
  }

  /** The first `j` rows are readable and have more different values than there are codes. */
  ghost predicate Overfull(src: StringArray, offset: nat, j: nat, limit: nat)
    requires offset + j <= src.Len()
  {
    Readable(src, offset, j) && |RowSet(Rows(src, offset, j))| > limit
  }

  /** Row `j` is the first that cannot be read, and the rows before it fit the codes. */
  ghost predicate BlockedAt(src: StringArray, offset: nat, j: nat, limit: nat)
    requires offset + j < src.Len()
  {
    Readable(src, offset, j) && |RowSet(Rows(src, offset, j))| <= limit && !Row(src, offset, j).Done?
  }

  /** A conversion succeeds exactly when the rows are readable and fit the codes. */
  lemma DoneExactlyWhen(src: StringArray, offset: nat, k: nat, limit: nat)
    requires offset + k <= src.Len()
    ensures Convert(src, offset, k, limit).Done?
       <==> Readable(src, offset, k) && |RowSet(Rows(src, offset, k))| <= limit
  {
    ConvertOutcome(src, offset, k, limit);
  }

  lemma OneRowLess(src: StringArray, offset: nat, k: nat)
    requires 0 < k && offset + k <= src.Len()
    ensures Readable(src, offset, k) <==> Readable(src, offset, k - 1) && Row(src, offset, k - 1).Done?
  {}

  /** A conversion that does not succeed ran out of codes or met a row it cannot read. */
  lemma {:induction false} ConvertStopsSomewhere(src: StringArray, offset: nat, k: nat, limit: nat) returns (j: nat)
    requires offset + k <= src.Len() && !Convert(src, offset, k, limit).Done?
    ensures j <= k && (Overfull(src, offset, j, limit) || (j < k && BlockedAt(src, offset, j, limit)))
    decreases k
  {
    DoneExactlyWhen(src, offset, k, limit);
    j := k;
    if !Readable(src, offset, k) {
      OneRowLess(src, offset, k);
      DoneExactlyWhen(src, offset, k - 1, limit);
      j := k - 1;
      if !Convert(src, offset, k - 1, limit).Done? {
        j := ConvertStopsSomewhere(src, offset, k - 1, limit);
      }
    }
  }

  /** The conversion ends with what reading row `j` ends with. */
  predicate EndsAs(src: StringArray, offset: nat, k: nat, limit: nat, j: nat)
    requires j < k && offset + k <= src.Len()
  {
    match Row(src, offset, j)
    case Done(_) => false
    case Failed(error) => Convert(src, offset, k, limit) == Failed(error)
    case Panicked => Convert(src, offset, k, limit).Panicked?
  }

  lemma OverfullPanics(src: StringArray, offset: nat, k: nat, limit: nat, j: nat)
    requires j <= k && offset + k <= src.Len() && Overfull(src, offset, j, limit)
    ensures Convert(src, offset, k, limit).Panicked?
  {
    ConvertOutcome(src, offset, j, limit);
    ConvertStops(src, offset, j, k, limit);
  }

  lemma BlockedEnds(src: StringArray, offset: nat, k: nat, limit: nat, j: nat)
    requires j < k && offset + k <= src.Len() && BlockedAt(src, offset, j, limit)
    ensures EndsAs(src, offset, k, limit, j)
  {
    ConvertOutcome(src, offset, j, limit);
    ConvertNext(src, offset, j, limit, Encode(Rows(src, offset, j)));
    ConvertStops(src, offset, j + 1, k, limit);
  }

  /** The three ways a conversion ends, each with its exact condition. It panics when the readable rows so far
      have more different values than there are codes, or at a row whose offsets cannot be sliced; it fails at
      a row that is not UTF-8; whichever comes first. */
  lemma ConvertEndsExactlyWhen(src: StringArray, offset: nat, k: nat, limit: nat)
    requires offset + k <= src.Len()
    ensures Convert(src, offset, k, limit).Done?
       <==> Readable(src, offset, k) && |RowSet(Rows(src, offset, k))| <= limit
    ensures Convert(src, offset, k, limit).Panicked?
       <==> (exists j :: 0 <= j <= k && Overfull(src, offset, j, limit))
            || (exists j :: 0 <= j < k && BlockedAt(src, offset, j, limit) && Row(src, offset, j).Panicked?)
    ensures Convert(src, offset, k, limit).Failed?
       <==> exists j :: 0 <= j < k && BlockedAt(src, offset, j, limit) && Row(src, offset, j).Failed?
  {
    DoneExactlyWhen(src, offset, k, limit);
    if !Convert(src, offset, k, limit).Done? {
      var j := ConvertStopsSomewhere(src, offset, k, limit);
      assert Overfull(src, offset, j, limit) || BlockedAt(src, offset, j, limit);
    }
    forall j | 0 <= j <= k && Overfull(src, offset, j, limit) ensures Convert(src, offset, k, limit).Panicked? {
      OverfullPanics(src, offset, k, limit, j);
    }
    forall j | 0 <= j < k && BlockedAt(src, offset, j, limit) ensures EndsAs(src, offset, k, limit, j) {
      BlockedEnds(src, offset, k, limit, j);
    }
  }

  /** When every row can be sliced only the dictionary can panic: exactly when some readable rows at the
      window's start have more different values than there are codes. */
  lemma PanicsExactlyWhenOverfull(src: StringArray, offset: nat, k: nat, limit: nat)
    requires offset + k <= src.Len() && forall i :: 0 <= i < k ==> !Row(src, offset, i).Panicked?
    ensures Convert(src, offset, k, limit).Panicked? <==> exists j :: 0 <= j <= k && Overfull(src, offset, j, limit)
  {
    ConvertEndsExactlyWhen(src, offset, k, limit);
  }

  /** The rows of a window can all be sliced exactly when its offsets are ordered and in bounds. */
  lemma OrderedRowsSlice(src: StringArray, offset: nat, len: nat)
    requires 0 < len && offset + len < |src.offsets|
    ensures MonotoneInBounds(src, offset, len) <==> forall k :: 0 <= k < len ==> !Row(src, offset, k).Panicked?
  {
    if MonotoneInBounds(src, offset, len) {
      forall k | 0 <= k < len ensures !Row(src, offset, k).Panicked? {
        MonotoneFrom(src, offset, offset + k + 1, offset + len);
      }
    }
    if forall k :: 0 <= k < len ==> !Row(src, offset, k).Panicked? {
      assert !Row(src, offset, len - 1).Panicked?;
      forall i | offset <= i < offset + len ensures src.offsets[i] <= src.offsets[i + 1] {
        assert !Row(src, offset, i - offset).Panicked?;
      }
    }
  }

  /** Unordered offsets panic without any dictionary, and text that is not UTF-8 fails before the dictionary
      could fill up. */
  lemma OtherEnds()
    ensures Convert(StringArray([5, 3], [], None), 0, 1, 1) == Panicked
    ensures Convert(StringArray([0, 1, 2, 3], [0x61, 0xFF, 0x62], None), 0, 3, 1) == Failed(TypeError)
  {
    var src := StringArray([0, 1, 2, 3], [0x61, 0xFF, 0x62], None);
    assert src.data[0..1] == [0x61] && src.data[1..2] == [0xFF];
    assert Row(src, 0, 0) == Done([0x61]) && Row(src, 0, 1) == Failed(TypeError);
    assert Convert(src, 0, 0, 1) == Done(Encoding([], []));
    assert Convert(src, 0, 1, 1).Done?;
    assert Convert(src, 0, 2, 1) == Failed(TypeError);
  }

  /** The first `j` rows of the window are text, and `limit` codes are enough for them. */
  ghost predicate Fits(src: StringArray, offset: nat, j: nat, limit: nat) {
    AllText(src, offset, j) && |TextSet(src, offset, j)| <= limit
  }

  predicate AllText(src: StringArray, offset: nat, j: nat) {
    offset + j <= src.Len() && forall i :: offset <= i < offset + j ==> src.IsText(i)
  }

  ghost function TextSet(src: StringArray, offset: nat, j: nat): set<Bytes>
    requires AllText(src, offset, j)
  {
    set i | offset <= i < offset + j :: src.TextOf(i)
  }

  lemma RowIs(src: StringArray, offset: nat, k: nat)
    requires offset + k < src.Len()
    ensures Row(src, offset, k) ==
            if !src.Sliceable(offset + k) then Panicked
            else if src.IsText(offset + k) then Done(src.TextOf(offset + k))
            else Failed(TypeError)
  {}

  lemma ReadableIs(src: StringArray, offset: nat, j: nat)
    requires offset + j <= src.Len()
    ensures Readable(src, offset, j) <==> AllText(src, offset, j)
  {
    forall k | 0 <= k < j ensures Row(src, offset, k).Done? <==> src.IsText(offset + k) {
      RowIs(src, offset, k);
    }
    if Readable(src, offset, j) {
      forall i | offset <= i < offset + j ensures src.IsText(i) {
        assert Row(src, offset, i - offset).Done?;
      }
    }
  }

  lemma RowsAre(src: StringArray, offset: nat, j: nat)
    requires offset + j <= src.Len() && Readable(src, offset, j)
    ensures AllText(src, offset, j)
    ensures forall k :: 0 <= k < j ==> Rows(src, offset, j)[k] == src.TextOf(offset + k)
    ensures RowSet(Rows(src, offset, j)) == TextSet(src, offset, j)
  {
    ReadableIs(src, offset, j);
    var rows := Rows(src, offset, j);
    forall k | 0 <= k < j ensures rows[k] == src.TextOf(offset + k) { RowIs(src, offset, k); }
    forall b | b in TextSet(src, offset, j) ensures b in RowSet(rows) {
      var i :| offset <= i < offset + j && src.TextOf(i) == b;
      assert rows[i - offset] == b;
    }
    forall b | b in RowSet(rows) ensures b in TextSet(src, offset, j) {
      var k :| 0 <= k < j && rows[k] == b;
      assert src.TextOf(offset + k) == b;
    }
  }

  lemma FitsIs(src: StringArray, offset: nat, j: nat, limit: nat)
    requires offset + j <= src.Len()
    ensures Fits(src, offset, j, limit) <==> Readable(src, offset, j) && |RowSet(Rows(src, offset, j))| <= limit
  {
    ReadableIs(src, offset, j);
    if Readable(src, offset, j) { RowsAre(src, offset, j); }
  }

  /** Row `i` is in bounds but not text, and the window's rows before it are encoded. */
  ghost predicate NotTextAt(src: StringArray, offset: nat, i: nat, limit: nat)
    requires offset <= i < src.Len()
  {
    Fits(src, offset, i - offset, limit) && src.Sliceable(i) && !src.IsText(i)
  }

  lemma NotTextAtIs(src: StringArray, offset: nat, j: nat, limit: nat)
    requires offset + j < src.Len()
    ensures NotTextAt(src, offset, offset + j, limit)
       <==> BlockedAt(src, offset, j, limit) && Row(src, offset, j).Failed?
  {
    FitsIs(src, offset, j, limit);
    RowIs(src, offset, j);
  }

  /** The three ways, told of the array's own bytes. */
  lemma ConvertEnds(src: StringArray, offset: nat, len: nat, limit: nat)
    requires offset + len <= src.Len()
    ensures Convert(src, offset, len, limit).Done? <==> Fits(src, offset, len, limit)
    ensures Convert(src, offset, len, limit).Failed?
       <==> exists i :: offset <= i < offset + len && NotTextAt(src, offset, i, limit)
  {
    ConvertEndsExactlyWhen(src, offset, len, limit);
    FitsIs(src, offset, len, limit);
    if Convert(src, offset, len, limit).Failed? {
      var j :| 0 <= j < len && BlockedAt(src, offset, j, limit) && Row(src, offset, j).Failed?;
      NotTextAtIs(src, offset, j, limit);
    }
    if i :| offset <= i < offset + len && NotTextAt(src, offset, i, limit) {
      NotTextAtIs(src, offset, i - offset, limit);
    }
  }

  lemma {:induction false} ConvertError(src: StringArray, offset: nat, len: nat, limit: nat)
    requires offset + len <= src.Len() && Convert(src, offset, len, limit).Failed?
    ensures Convert(src, offset, len, limit).error == TypeError
    decreases len
  {
    if Convert(src, offset, len - 1, limit).Failed? {
      ConvertError(src, offset, len - 1, limit);
    } else {
      RowIs(src, offset, len - 1);
    }
  }

  /** The codes and the dictionary of a conversion that succeeds. */
  lemma CodesAre(src: StringArray, offset: nat, len: nat, limit: nat, e: Encoding<Bytes>)
    requires offset + len <= src.Len() && Convert(src, offset, len, limit) == Done(e)
    ensures AllText(src, offset, len) && |e.codes| == len && |e.uniq| <= limit
    ensures forall k :: 0 <= k < len ==> e.codes[k] < |e.uniq| && e.uniq[e.codes[k]] == src.TextOf(offset + k)
    ensures Distinct(e.uniq)
    ensures forall c :: 0 <= c < |e.uniq| ==> FirstUsed(e.codes, c)
  {
    ConvertOutcome(src, offset, len, limit);
    RowsAre(src, offset, len);
    var rows := Rows(src, offset, len);
    EncodeDecodes(rows);
    EncodeDistinct(rows);
    EncodeSize(rows);
    forall c | 0 <= c < |e.uniq| ensures FirstUsed(e.codes, c) {
      EncodeUses(rows, c);
    }
  }

  /** The mask of a window: the whole mask, or a copy of its range. */
  function WindowMask(mask: Mask, offset: nat, len: nat, n: nat): Mask
    requires offset + len <= n && (mask.Some? ==> |mask.value| == n)
  {
    if offset == 0 && len == n then mask
    else if mask.Some? then Some(mask.value[offset..offset + len])
    else None
  }

  lemma WindowMaskIsSlice(mask: Mask, offset: nat, len: nat, n: nat)
    requires offset + len <= n && (mask.Some? ==> |mask.value| == n)
    ensures WindowMask(mask, offset, len, n) == if mask.Some? then Some(mask.value[offset..offset + len]) else None
  {
    if mask.Some? && offset == 0 && len == n { assert mask.value[0..n] == mask.value; }
  }

  /** What the conversion of a window is: an index error past the end, otherwise the rows' encoding. */
  function Converted(src: StringArray, offset: nat, len: nat, limit: nat): Outcome<Categorical>
    requires src.Valid()
  {
    if offset + len > src.Len() then Failed(IndexError)
    else match Convert(src, offset, len, limit)
      case Done(e) => Done(Categorical(e.codes, e.uniq, WindowMask(src.mask, offset, len, src.Len())))
      case Failed(error) => Failed(error)
      case Panicked => Panicked
  }

  /** The table knows exactly the dictionary's values, each under its position. */
  ghost predicate TableMatches(table: DictTable, uniq: seq<Bytes>)
    requires table.Valid()
    reads table
  {
    forall key :: table.Lookup(key) == IndexOf(uniq, key)
  }

  /** The conversion of a string window, with a hash table over any hash function. The result does not
      mention the hash function: it affects speed only. */
  method StringToCat(src: StringArray, offset: nat, len: nat, limit: nat, hash: Bytes -> nat, buckets: nat)
    returns (r: Outcome<Categorical>)
    requires src.Valid() && buckets > 0
    ensures r == Converted(src, offset, len, limit)
    ensures r == Failed(IndexError) <==> offset + len > src.Len()
    ensures r == Failed(TypeError) <==>
            offset + len <= src.Len() && exists i :: offset <= i < offset + len && NotTextAt(src, offset, i, limit)
    ensures r.Failed? ==> r.error == IndexError || r.error == TypeError
    ensures r.Done? <==> Fits(src, offset, len, limit)
    ensures r.Done? ==> |r.value.codes| == len && |r.value.uniq| <= limit && Distinct(r.value.uniq)
    ensures r.Done? ==> forall k :: 0 <= k < len ==>
              r.value.codes[k] < |r.value.uniq| && r.value.uniq[r.value.codes[k]] == src.TextOf(offset + k)
    ensures r.Done? ==> forall c :: 0 <= c < |r.value.uniq| ==> FirstUsed(r.value.codes, c)
    ensures r.Done? ==>
              r.value.mask == if src.mask.Some? then Some(src.mask.value[offset..offset + len]) else None
  {
    if offset + len > src.Len() {
      return Failed(IndexError);
    }
    var e := ConvertWindow(src, offset, len, limit, hash, buckets);
    ConvertEnds(src, offset, len, limit);
    if e.Failed? { ConvertError(src, offset, len, limit); }
    if e.Done? { CodesAre(src, offset, len, limit, e.value); }
    WindowMaskIsSlice(src.mask, offset, len, src.Len());
    match e
    case Panicked => return Panicked;
    case Failed(error) => return Failed(error);
    case Done(e) => return Done(Categorical(e.codes, e.uniq, WindowMask(src.mask, offset, len, src.Len())));
  }

  /** The loop over the window's rows. */
  method ConvertWindow(src: StringArray, offset: nat, len: nat, limit: nat, hash: Bytes -> nat, buckets: nat)
    returns (r: Outcome<Encoding<Bytes>>)
    requires src.Valid() && offset + len <= src.Len() && buckets > 0
    ensures r == Convert(src, offset, len, limit)
  {
    var text := WindowText(src, offset, len);
    var table := new DictTable(hash, buckets);
    var uniq: seq<Bytes> := [];
    var codes: seq<nat> := [];
    for k := 0 to len
      invariant fresh(table) && table.Valid() && TableMatches(table, uniq)
      invariant Convert(src, offset, k, limit) == Done(Encoding(codes, uniq))
    {
      var row := ReadRow(src, offset, len, text, k);
      ConvertNext(src, offset, k, limit, Encoding(codes, uniq));
      if !row.Done? {
        ConvertStops(src, offset, k + 1, len, limit);
        return if row.Panicked? then Panicked else Failed(row.error);
      }
      var code;
      code, uniq := CodeFor(table, uniq, row.value, limit);
      if code.None? {
        ConvertStops(src, offset, k + 1, len, limit);
        return Panicked;
      }
      codes := codes + [code.value];
    }
    return Done(Encoding(codes, uniq));
  }

  method ReadRow(src: StringArray, offset: nat, len: nat, text: Option<(nat, Bytes)>, k: nat)
    returns (row: Outcome<Bytes>)
    requires src.Valid() && offset + len <= src.Len() && k < len && text == WindowText(src, offset, len)
    ensures row == Row(src, offset, k)
  {
    var start, end := src.offsets[offset + k], src.offsets[offset + k + 1];
    FastRowIsSlowRow(src, offset, len, start, end);
    row := FastRow(src, text, start, end);
  }

  lemma ConvertNext(src: StringArray, offset: nat, k: nat, limit: nat, e: Encoding<Bytes>)
    requires offset + k < src.Len() && Convert(src, offset, k, limit) == Done(e)
    ensures Convert(src, offset, k + 1, limit) ==
            match Row(src, offset, k)
            case Done(row) => if row !in e.uniq && |e.uniq| >= limit then Panicked else Done(Extend(e, row))
            case Failed(error) => Failed(error)
            case Panicked => Panicked
  {}

  /** `entry(s).or_insert_with(...)`: the value's code, a new one when it is new, none when no code is left. */
  method CodeFor(table: DictTable, uniq: seq<Bytes>, s: Bytes, limit: nat)
    returns (code: Option<nat>, uniq': seq<Bytes>)
    requires table.Valid() && TableMatches(table, uniq)
    modifies table
    ensures table.Valid() && TableMatches(table, uniq')
    ensures code.None? <==> s !in uniq && |uniq| >= limit
    ensures code.None? ==> uniq' == uniq
    ensures code.Some? ==>
              forall codes :: Extend(Encoding(codes, uniq), s) == Encoding(codes + [code.value], uniq')
  {
    uniq' := uniq;
    code := table.Lookup(s);
    if code.None? {
      var next := |uniq|;
      if next < limit {
        IndexOfAppend(uniq, s);
        table.Insert(s, next);
        uniq' := uniq + [s];
        code := Some(next);
      }
    }
  }

  lemma {:induction false} ConvertStops(src: StringArray, offset: nat, k: nat, len: nat, limit: nat)
    requires k <= len && offset + len <= src.Len() && !Convert(src, offset, k, limit).Done?
    ensures Convert(src, offset, len, limit) == Convert(src, offset, k, limit)
    decreases len
  {
    if k < len { ConvertStops(src, offset, k, len - 1, limit); }
  }

  lemma IndexOfAppend(uniq: seq<Bytes>, s: Bytes)
    requires s !in uniq
    ensures forall key :: IndexOf(uniq + [s], key) == if key == s then Some(|uniq|) else IndexOf(uniq, key)
  {
    forall key ensures IndexOf(uniq + [s], key) == if key == s then Some(|uniq|) else IndexOf(uniq, key) {
      if key == s {
        assert (uniq + [s])[..|uniq|] == uniq;
        FirstUnique(uniq + [s], s, |uniq|);
      } else if key in uniq {
        FirstStable(uniq, s, key);
      }
    }
  }

  /** The conversion under the dictionary's own hasher and any seed. */
  method StringToCatSeeded(src: StringArray, offset: nat, len: nat, limit: nat, seed: u64, buckets: nat)
    returns (r: Outcome<Categorical>)
    requires src.Valid() && buckets > 0
    ensures r == Converted(src, offset, len, limit)
  {
    r := StringToCat(src, offset, len, limit, key => if |key| < WORD_SPACE then KeyHash(seed, key) else 0, buckets);
  }
}
