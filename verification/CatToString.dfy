/** Categorical arrays back to strings, round trips, and changes of index width. */
module CatToStrings {
  import opened Options
  import opened Errors
  import opened Sequences
  import opened Utf8
  import opened Words
  import opened Dictionaries
  import opened Categoricals

  /** A row of the categorical: its dictionary entry, or the empty string past the dictionary. */
  function RowOf(cat: Categorical, i: nat): Bytes
    requires i < |cat.codes|
  {
    if cat.codes[i] < |cat.uniq| then cat.uniq[cat.codes[i]] else []
  }

  function RowsOfCat(cat: Categorical): (rows: seq<Bytes>)
    ensures |rows| == |cat.codes| && forall i :: 0 <= i < |rows| ==> rows[i] == RowOf(cat, i)
  {
    seq(|cat.codes|, i requires 0 <= i < |cat.codes| => RowOf(cat, i))
  }

  /** The offsets of the first `i` rows. */
  function Offsets(rows: seq<Bytes>, i: nat): (offsets: seq<nat>)
    requires i <= |rows|
    ensures |offsets| == i + 1
  {
    seq(i + 1, k requires 0 <= k <= i => |Concat(rows[..k])|)
  }

  lemma OffsetsNext(rows: seq<Bytes>, i: nat)
    requires i < |rows|
    ensures Offsets(rows, i + 1) == Offsets(rows, i) + [|Concat(rows[..i])| + |rows[i]|]
    ensures Concat(rows[..i + 1]) == Concat(rows[..i]) + rows[i]
    ensures |Concat(rows[..i])| + |rows[i]| <= |Concat(rows)|
  {
    ConcatPrefix(rows, i);
    ConcatLonger(rows, i + 1);
  }

  /** The string array of a list of rows: the joined bytes, with offsets counted from 0. */
  function StringsOf(rows: seq<Bytes>, mask: Mask): (s: StringArray)
    ensures |s.offsets| == |rows| + 1 && s.mask == mask
  {
    StringArray(Offsets(rows, |rows|), Concat(rows), mask)
  }

  /** The bytes between offsets `i` and `i + 1`, which are in order and in bounds, are `row`. */
  predicate HoldsRow(s: StringArray, i: nat, row: Bytes)
    requires i + 1 < |s.offsets|
  {
    s.offsets[i] <= s.offsets[i + 1] <= |s.data| && s.data[s.offsets[i]..s.offsets[i + 1]] == row
  }

  /** The decoded array's offsets start at 0, never decrease and end at the byte length, and its rows
      are the rows. */
  lemma StringsOfShape(rows: seq<Bytes>, mask: Mask)
    ensures var s := StringsOf(rows, mask);
            s.offsets[0] == 0 && s.offsets[|rows|] == |s.data|
            && forall i :: 0 <= i < |rows| ==> HoldsRow(s, i, rows[i])
  {
    var s := StringsOf(rows, mask);
    assert rows[..|rows|] == rows;
    forall i | 0 <= i < |rows| ensures HoldsRow(s, i, rows[i]) {
      ConcatPrefix(rows, i);
      ConcatLonger(rows, i + 1);
      RowInPrefix(s.data, Concat(rows[..i]), rows[i]);
    }
  }

  lemma RowInPrefix(data: Bytes, before: Bytes, row: Bytes)
    requires |before| + |row| <= |data| && data[..|before| + |row|] == before + row
    ensures data[|before|..|before| + |row|] == row
  {
    assert data[..|before| + |row|][|before|..] == data[|before|..|before| + |row|];
  }

  /** The bytes the first `k` codes decode to. */
  function DecodedSize(src: Categorical, k: nat): nat
    requires k <= |src.codes|
  {
    if k == 0 then 0
    else DecodedSize(src, k - 1) + if src.codes[k - 1] < |src.uniq| then |src.uniq[src.codes[k - 1]]| else 0
  }

  lemma {:induction false} DecodedSizeIs(src: Categorical, k: nat)
    requires k <= |src.codes|
    ensures DecodedSize(src, k) == |Concat(RowsOfCat(src)[..k])|
  {
    if k > 0 {
      DecodedSizeIs(src, k - 1);
      ConcatPrefix(RowsOfCat(src), k - 1);
    }
  }

  /** The array's rows are the codes' entries, empty past the dictionary. */
  predicate HoldsCodes(s: StringArray, src: Categorical) {
    |s.offsets| == |src.codes| + 1
    && forall i :: 0 <= i < |src.codes| ==>
         HoldsRow(s, i, if src.codes[i] < |src.uniq| then src.uniq[src.codes[i]] else [])
  }

  lemma RowsAreCodes(s: StringArray, src: Categorical, rows: seq<Bytes>)
    requires |s.offsets| == |rows| + 1 && rows == RowsOfCat(src)
    requires forall i :: 0 <= i < |rows| ==> HoldsRow(s, i, rows[i])
    ensures HoldsCodes(s, src)
  {
    forall i | 0 <= i < |src.codes|
      ensures HoldsRow(s, i, if src.codes[i] < |src.uniq| then src.uniq[src.codes[i]] else [])
    {
      assert rows[i] == RowOf(src, i);
    }
  }

  lemma DecodedIs(src: Categorical)
    ensures HoldsCodes(StringsOf(RowsOfCat(src), src.mask), src)
    ensures StringsOf(RowsOfCat(src), src.mask).offsets[0] == 0
    ensures StringsOf(RowsOfCat(src), src.mask).offsets[|src.codes|] == |Concat(RowsOfCat(src))|
    ensures DecodedSize(src, |src.codes|) == |Concat(RowsOfCat(src))|
  {
    var rows := RowsOfCat(src);
    StringsOfShape(rows, src.mask);
    RowsAreCodes(StringsOf(rows, src.mask), src, rows);
    DecodedSizeIs(src, |src.codes|);
    assert rows[..|rows|] == rows;
  }

  /** Decodes the codes one after another: each row is its code's entry, or empty past the dictionary. It fails
      exactly when the bytes outgrow the offset type. */
  method CatToString(src: Categorical, max: nat) returns (r: Result<StringArray, MinarrowError>)
    ensures r == if |Concat(RowsOfCat(src))| > max then Err(Overflow) else Ok(StringsOf(RowsOfCat(src), src.mask))
    ensures r.Err? <==> DecodedSize(src, |src.codes|) > max
    ensures r.Err? ==> r.error == Overflow
    ensures r.Ok? ==> HoldsCodes(r.value, src) && r.value.mask == src.mask
    ensures r.Ok? ==> r.value.offsets[0] == 0 && r.value.offsets[|src.codes|] == |r.value.data|
  {
    DecodedIs(src);
    r := DecodeCodes(src, max);
  }

  /** The loop over the codes. */
  method DecodeCodes(src: Categorical, max: nat) returns (r: Result<StringArray, MinarrowError>)
    ensures r == if |Concat(RowsOfCat(src))| > max then Err(Overflow) else Ok(StringsOf(RowsOfCat(src), src.mask))
  {
    ghost var rows := RowsOfCat(src);
    var data: Bytes := [];
    var pos: nat := 0;
    var offsets := [pos];
    for i := 0 to |src.codes|
      invariant data == Concat(rows[..i]) && pos == |data| <= max && offsets == Offsets(rows, i)
    {
      var code := src.codes[i];
      var bytes := if code < |src.uniq| then src.uniq[code] else [];
      assert bytes == rows[i];
      data := data + bytes;
      OffsetsNext(rows, i);
      if |bytes| > max || pos + |bytes| > max {
        return Err(Overflow);
      }
      pos := pos + |bytes|;
      offsets := offsets + [pos];
    }
    assert rows[..|rows|] == rows;
    return Ok(StringArray(offsets, data, src.mask));
  }

  // ----- round trips -----

  /** The window's bytes, from its first offset to its last, are its rows joined. */
  lemma {:induction false} RowsJoinToSpan(src: StringArray, offset: nat, len: nat)
    requires offset + len < |src.offsets| && Readable(src, offset, len) && src.offsets[offset] <= |src.data|
    ensures InSpan(src, offset, len) && Concat(Rows(src, offset, len)) == Span(src, offset, len)
    decreases len
  {
    if len > 0 {
      RowsJoinToSpan(src, offset, len - 1);
      assert Row(src, offset, len - 1).Done?;
      SpanGrows(src, offset, len);
      assert Rows(src, offset, len)[..len - 1] == Rows(src, offset, len - 1);
    }
  }

  /** String to categorical to string: a converted window decodes to its own rows under its own mask,
      and never overflows an offset type that held the window's last offset. */
  lemma StringCatString(src: StringArray, offset: nat, len: nat, limit: nat, max: nat)
    requires src.Valid() && Converted(src, offset, len, limit).Done?
    requires len > 0 ==> src.offsets[offset + len] <= max
    ensures var cat := Converted(src, offset, len, limit).value;
            Readable(src, offset, len)
            && RowsOfCat(cat) == Rows(src, offset, len)
            && cat.mask == WindowMask(src.mask, offset, len, src.Len())
            && |Concat(RowsOfCat(cat))| <= max
  {
    ConvertedIs(src, offset, len, limit);
    var rows := Rows(src, offset, len);
    EncodeDecodes(rows);
    assert RowsOfCat(Converted(src, offset, len, limit).value) == rows;
    if len > 0 {
      WindowFits(src, offset, len);
    } else {
      assert rows == [];
    }
  }

  /** The two conversions one after the other: the window's own rows and mask, with offsets counted from 0, unless
      the bytes outgrow the offset type; one that held the window's last offset they never do. */
  method ThereAndBack(src: StringArray, offset: nat, len: nat, limit: nat, max: nat, hash: Bytes -> nat, buckets: nat)
    returns (r: Outcome<StringArray>)
    requires src.Valid() && buckets > 0
    ensures var there := Converted(src, offset, len, limit);
            if there.Done? then
              Readable(src, offset, len)
              && (r == if |Concat(Rows(src, offset, len))| > max then Failed(Overflow)
                       else Done(StringsOf(Rows(src, offset, len), WindowMask(src.mask, offset, len, src.Len()))))
              && (len > 0 && src.offsets[offset + len] <= max ==> r.Done?)
            else r == if there.Panicked? then Panicked else Failed(there.error)
  {
    var there := StringToCat(src, offset, len, limit, hash, buckets);
    match there
    case Panicked => return Panicked;
    case Failed(error) => return Failed(error);
    case Done(cat) =>
      BackIs(src, offset, len, limit, max);
      var back := CatToString(cat, max);
      if back.Err? {
        return Failed(back.error);
      }
      return Done(back.value);
  }

  lemma BackIs(src: StringArray, offset: nat, len: nat, limit: nat, max: nat)
    requires src.Valid() && Converted(src, offset, len, limit).Done?
    ensures var cat := Converted(src, offset, len, limit).value;
            Readable(src, offset, len) && RowsOfCat(cat) == Rows(src, offset, len)
            && cat.mask == WindowMask(src.mask, offset, len, src.Len())
            && (len > 0 && src.offsets[offset + len] <= max ==> |Concat(RowsOfCat(cat))| <= max)
  {
    ConvertedIs(src, offset, len, limit);
    StringCatString(src, offset, len, limit, if len > 0 then src.offsets[offset + len] else max);
  }

  lemma ConvertedIs(src: StringArray, offset: nat, len: nat, limit: nat)
    requires src.Valid() && Converted(src, offset, len, limit).Done?
    ensures offset + len <= src.Len() && Readable(src, offset, len)
    ensures Converted(src, offset, len, limit).value
         == Categorical(Encode(Rows(src, offset, len)).codes, Encode(Rows(src, offset, len)).uniq,
                        WindowMask(src.mask, offset, len, src.Len()))
  {
    ConvertOutcome(src, offset, len, limit);
  }

  lemma WindowFits(src: StringArray, offset: nat, len: nat)
    requires 0 < len && offset + len <= src.Len() && Readable(src, offset, len)
    ensures |Concat(Rows(src, offset, len))| <= src.offsets[offset + len]
  {
    assert Row(src, offset, 0).Done?;
    RowsJoinToSpan(src, offset, len);
  }

  /** No offset of the window lies before its first. */
  predicate NoneBefore(src: StringArray, offset: nat, len: nat)
    requires offset + len < |src.offsets|
  {
    forall i :: offset <= i <= offset + len ==> src.offsets[offset] <= src.offsets[i]
  }

  /** No offset of the window lies past its last. */
  predicate NonePast(src: StringArray, offset: nat, len: nat)
    requires offset + len < |src.offsets|
  {
    forall i :: offset <= i <= offset + len ==> src.offsets[i] <= src.offsets[offset + len]
  }

  /** A copy of the window can be made: its bytes are in bounds and no offset lies before its first. */
  predicate Copyable(src: StringArray, offset: nat, len: nat) {
    offset + len < |src.offsets| && InSpan(src, offset, len) && NoneBefore(src, offset, len)
  }

  /** The string array copied out of a window, with its offsets counted from the window's first byte. Whether
      the bytes are text does not matter. */
  function SliceStrings(src: StringArray, offset: nat, len: nat): (s: StringArray)
    requires Copyable(src, offset, len)
    requires src.mask.Some? ==> |src.mask.value| == src.Len()
    ensures s.Len() == len
  {
    StringArray(seq(len + 1, i requires 0 <= i <= len => src.offsets[offset + i] - src.offsets[offset]),
                Span(src, offset, len),
                if src.mask.Some? then Some(src.mask.value[offset..offset + len]) else None)
  }

  /** `slice_clone`, with checked subtraction: it panics when the window or its bytes are out of bounds, or an
      offset lies before the window's first. */
  function CopyOf(src: StringArray, offset: nat, len: nat): Outcome<StringArray>
    requires src.Valid()
  {
    if Copyable(src, offset, len) then Done(SliceStrings(src, offset, len)) else Panicked
  }

  /** The copy, made offset by offset. */
  method SliceClone(src: StringArray, offset: nat, len: nat) returns (r: Outcome<StringArray>)
    requires src.Valid()
    ensures r == CopyOf(src, offset, len)
    ensures !r.Failed?
    ensures r.Done? <==>
            offset + len < |src.offsets| && src.offsets[offset + len] <= |src.data|
            && forall i :: offset <= i <= offset + len ==> src.offsets[offset] <= src.offsets[i]
    ensures r.Done? ==>
              |r.value.offsets| == len + 1
              && (forall i :: 0 <= i <= len ==> src.offsets[offset + i] == src.offsets[offset] + r.value.offsets[i])
              && r.value.data == src.data[src.offsets[offset]..src.offsets[offset + len]]
              && r.value.mask == if src.mask.Some? then Some(src.mask.value[offset..offset + len]) else None
  {
    if offset + len >= |src.offsets| {
      return Panicked;
    }
    var base, end := src.offsets[offset], src.offsets[offset + len];
    if base > end || end > |src.data| {
      return Panicked;
    }
    var offsets: seq<nat> := [];
    for i := 0 to len + 1
      invariant |offsets| == i
      invariant forall j :: offset <= j < offset + i ==>
                  base <= src.offsets[j] && offsets[j - offset] == src.offsets[j] - base
    {
      if src.offsets[offset + i] < base {
        return Panicked;
      }
      offsets := offsets + [src.offsets[offset + i] - base];
    }
    r := Done(StringArray(offsets, src.data[base..end],
                          if src.mask.Some? then Some(src.mask.value[offset..offset + len]) else None));
    assert forall k :: 0 <= k <= len ==> offsets[k] == offsets[offset + k - offset];
    assert offsets == SliceStrings(src, offset, len).offsets;
  }

  lemma CopyValid(src: StringArray, offset: nat, len: nat)
    requires src.Valid() && Copyable(src, offset, len)
    ensures SliceStrings(src, offset, len).Valid()
  {}

  /** Copying the window and converting all of the copy. */
  function CopyConverted(src: StringArray, offset: nat, len: nat, limit: nat): Outcome<Categorical>
    requires src.Valid()
  {
    match CopyOf(src, offset, len)
    case Done(copy) =>
      CopyValid(src, offset, len);
      Converted(copy, 0, len, limit)
    case Failed(error) => Failed(error)
    case Panicked => Panicked
  }

  /** Ordered offsets in bounds can be copied, and lie between the window's first and last. */
  lemma OrderedWindow(src: StringArray, offset: nat, len: nat)
    requires offset + len < |src.offsets| && MonotoneInBounds(src, offset, len)
    ensures Copyable(src, offset, len) && NonePast(src, offset, len)
  {
    forall i | offset <= i <= offset + len
      ensures src.offsets[offset] <= src.offsets[i] <= src.offsets[offset + len]
    {
      MonotoneFrom(src, offset, offset, i);
      MonotoneFrom(src, offset, i, offset + len);
    }
  }

  /** Converting a window with ordered offsets and converting a copy of it end alike: the same array, the same
      error or the same panic. */
  lemma WindowConvertsAsItsCopy(src: StringArray, offset: nat, len: nat, limit: nat)
    requires src.Valid() && offset + len < |src.offsets| && MonotoneInBounds(src, offset, len)
    ensures CopyOf(src, offset, len).Done?
    ensures CopyConverted(src, offset, len, limit) == Converted(src, offset, len, limit)
  {
    OrderedWindow(src, offset, len);
    CopyConvertsAlike(src, offset, len, limit);
  }

  /** The same whenever no offset lies past the window's last, ordered or not. */
  lemma CopyConvertsAlike(src: StringArray, offset: nat, len: nat, limit: nat)
    requires src.Valid() && Copyable(src, offset, len) && NonePast(src, offset, len)
    ensures CopyConverted(src, offset, len, limit) == Converted(src, offset, len, limit)
  {
    var copy := SliceStrings(src, offset, len);
    forall k | 0 <= k < len ensures Row(copy, 0, k) == Row(src, offset, k) {
      CopyRow(src, offset, len, k);
    }
    SameRowsConvertAlike(copy, 0, src, offset, len, limit);
    WindowMaskIsSlice(src.mask, offset, len, src.Len());
  }

  /** A copied row is the row, unless the row ends past the window's last offset: then it panics. */
  lemma CopyRow(src: StringArray, offset: nat, len: nat, k: nat)
    requires src.Valid() && k < len && Copyable(src, offset, len)
    ensures Row(SliceStrings(src, offset, len), 0, k) ==
            if src.offsets[offset + k + 1] > src.offsets[offset + len] then Panicked else Row(src, offset, k)
  {
    var start, end := src.offsets[offset + k], src.offsets[offset + k + 1];
    if start <= end <= src.offsets[offset + len] {
      SubSlice(src.data, src.offsets[offset], src.offsets[offset + len], start, end);
    }
  }

  lemma SameStepOrPanic(a: StringArray, i: nat, b: StringArray, j: nat, n: nat, limit: nat)
    requires i + n < a.Len() && j + n < b.Len()
    requires Row(a, i, n) == Row(b, j, n) || Row(a, i, n).Panicked?
    requires Convert(a, i, n, limit) == Convert(b, j, n, limit) || Convert(a, i, n, limit).Panicked?
    ensures Convert(a, i, n + 1, limit) == Convert(b, j, n + 1, limit) || Convert(a, i, n + 1, limit).Panicked?
  {}

  /** Rows that are the same or panic convert to the same or a panic. */
  lemma {:induction false} SameRowsOrPanic(a: StringArray, i: nat, b: StringArray, j: nat, n: nat, limit: nat)
    requires i + n <= a.Len() && j + n <= b.Len()
    requires forall k :: 0 <= k < n ==> Row(a, i, k) == Row(b, j, k) || Row(a, i, k).Panicked?
    ensures Convert(a, i, n, limit) == Convert(b, j, n, limit) || Convert(a, i, n, limit).Panicked?
    decreases n
  {
    if n > 0 {
      SameRowsOrPanic(a, i, b, j, n - 1, limit);
      SameStepOrPanic(a, i, b, j, n - 1, limit);
    }
  }

  /** The copy's conversion is the window's or a panic. */
  lemma CopySameOrPanics(src: StringArray, offset: nat, len: nat, k: nat, limit: nat)
    requires src.Valid() && k <= len && Copyable(src, offset, len)
    ensures var copied := Convert(SliceStrings(src, offset, len), 0, k, limit);
            copied == Convert(src, offset, k, limit) || copied.Panicked?
  {
    var copy := SliceStrings(src, offset, len);
    forall i | 0 <= i < k ensures Row(copy, 0, i) == Row(src, offset, i) || Row(copy, 0, i).Panicked? {
      CopyRow(src, offset, len, i);
    }
    SameRowsOrPanic(copy, 0, src, offset, k, limit);
  }

  /** A row that panics ends a conversion that reaches it in a panic. */
  lemma PanicsAtRow(a: StringArray, i: nat, n: nat, limit: nat, j: nat)
    requires i + n <= a.Len() && j < n && Row(a, i, j).Panicked? && !Convert(a, i, j, limit).Failed?
    ensures Convert(a, i, n, limit).Panicked?
  {
    assert Convert(a, i, j + 1, limit).Panicked?;
    ConvertStops(a, i, j + 1, n, limit);
  }

  /** The window's conversion fails at row `j`: the rows before it are readable and fit the codes, and it is
      not UTF-8. */
  ghost predicate FailsAt(src: StringArray, offset: nat, len: nat, limit: nat, j: nat)
    requires offset + len <= src.Len()
  {
    j < len && BlockedAt(src, offset, j, limit) && Row(src, offset, j).Failed?
  }

  /** The row the window fails at ends past the window's last offset. */
  ghost predicate FailsPastEnd(src: StringArray, offset: nat, len: nat, limit: nat, j: nat)
    requires offset + len < |src.offsets|
  {
    FailsAt(src, offset, len, limit, j) && src.offsets[offset + j + 1] > src.offsets[offset + len]
  }

  /** If it does, the window fails where the copy panics. */
  lemma PastEndPanics(src: StringArray, offset: nat, len: nat, limit: nat, j: nat)
    requires src.Valid() && Copyable(src, offset, len) && FailsPastEnd(src, offset, len, limit, j)
    ensures Convert(src, offset, len, limit).Failed?
    ensures Convert(SliceStrings(src, offset, len), 0, len, limit).Panicked?
  {
    BlockedEnds(src, offset, len, limit, j);
    CopySameOrPanics(src, offset, len, j, limit);
    DoneExactlyWhen(src, offset, j, limit);
    CopyRow(src, offset, len, j);
    PanicsAtRow(SliceStrings(src, offset, len), 0, len, limit, j);
  }

  /** If it does not, both fail alike. */
  lemma BeforeEndFails(src: StringArray, offset: nat, len: nat, limit: nat, j: nat)
    requires src.Valid() && Copyable(src, offset, len) && FailsAt(src, offset, len, limit, j)
    requires !FailsPastEnd(src, offset, len, limit, j)
    ensures Convert(SliceStrings(src, offset, len), 0, len, limit) == Convert(src, offset, len, limit)
  {
    var copy := SliceStrings(src, offset, len);
    ReadableNonePast(src, offset, j);
    forall k | 0 <= k < j + 1 ensures Row(copy, 0, k) == Row(src, offset, k) {
      CopyRow(src, offset, len, k);
      assert src.offsets[offset + k] <= src.offsets[offset + j];
    }
    SameRowsConvertAlike(copy, 0, src, offset, j + 1, limit);
    BlockedEnds(src, offset, j + 1, limit, j);
    ConvertStops(src, offset, j + 1, len, limit);
    ConvertStops(copy, 0, j + 1, len, limit);
  }

  /** A window that can be copied converts differently exactly when it fails at a row that ends past the
      window's last offset. */
  lemma CopyableDiffersExactlyWhen(src: StringArray, offset: nat, len: nat, limit: nat)
    requires src.Valid() && Copyable(src, offset, len)
    ensures CopyConverted(src, offset, len, limit) != Converted(src, offset, len, limit)
       <==> exists j :: 0 <= j < len && FailsPastEnd(src, offset, len, limit, j)
  {
    CopyValid(src, offset, len);
    CopySameOrPanics(src, offset, len, len, limit);
    ConvertEndsExactlyWhen(src, offset, len, limit);
    if j :| 0 <= j < len && FailsPastEnd(src, offset, len, limit, j) {
      PastEndPanics(src, offset, len, limit, j);
    } else if Convert(src, offset, len, limit).Done? {
      ReadableNonePast(src, offset, len);
      CopyConvertsAlike(src, offset, len, limit);
    } else if Convert(src, offset, len, limit).Failed? {
      var j :| 0 <= j < len && BlockedAt(src, offset, j, limit) && Row(src, offset, j).Failed?;
      assert FailsAt(src, offset, len, limit, j);
      BeforeEndFails(src, offset, len, limit, j);
    }
  }

  /** A window that cannot be copied converts without a panic exactly when it is empty or fails. */
  lemma UncopyableEnds(src: StringArray, offset: nat, len: nat, limit: nat)
    requires src.Valid() && offset + len <= src.Len() && !Copyable(src, offset, len)
    ensures !Converted(src, offset, len, limit).Panicked?
       <==> len == 0 || exists j :: 0 <= j < len && FailsAt(src, offset, len, limit, j)
  {
    ConvertEndsExactlyWhen(src, offset, len, limit);
    if len > 0 && Readable(src, offset, len) {
      ReadableCopyable(src, offset, len);
    }
    if j :| 0 <= j < len && FailsAt(src, offset, len, limit, j) {
      BlockedEnds(src, offset, len, limit, j);
    } else if Convert(src, offset, len, limit).Failed? {
      var j :| 0 <= j < len && BlockedAt(src, offset, j, limit) && Row(src, offset, j).Failed?;
      assert FailsAt(src, offset, len, limit, j);
    }
  }

  /** Readable rows, at least one of them, can be copied. */
  lemma ReadableCopyable(src: StringArray, offset: nat, len: nat)
    requires 0 < len && offset + len < |src.offsets| && Readable(src, offset, len)
    ensures Copyable(src, offset, len)
  {
    assert Row(src, offset, 0).Done?;
    ReadableText(src, offset, len);
    forall i | offset <= i <= offset + len ensures src.offsets[offset] <= src.offsets[i] {
      assert StartsOnBoundary(src, offset, len, i - offset);
    }
  }

  /** Converting the window and converting a copy of it end differently exactly when: the window is out of
      bounds, an error where the copy panics; or it cannot be copied, yet is empty or fails; or it can, and fails
      at a row that ends past its last offset. */
  ghost predicate EndsDiffer(src: StringArray, offset: nat, len: nat, limit: nat) {
    if offset + len > src.Len() then true
    else if Copyable(src, offset, len) then exists j :: 0 <= j < len && FailsPastEnd(src, offset, len, limit, j)
    else len == 0 || exists j :: 0 <= j < len && FailsAt(src, offset, len, limit, j)
  }

  lemma CopyDiffersExactlyWhen(src: StringArray, offset: nat, len: nat, limit: nat)
    requires src.Valid()
    ensures CopyConverted(src, offset, len, limit) != Converted(src, offset, len, limit)
       <==> EndsDiffer(src, offset, len, limit)
  {
    if offset + len <= src.Len() {
      if Copyable(src, offset, len) {
        CopyableDiffersExactlyWhen(src, offset, len, limit);
      } else {
        UncopyableEnds(src, offset, len, limit);
      }
    }
  }

  /** The copy gives an array exactly when the window does and can be copied, as all but empty ones then can;
      and it is the same array. */
  lemma CopySucceedsAlike(src: StringArray, offset: nat, len: nat, limit: nat)
    requires src.Valid()
    ensures CopyConverted(src, offset, len, limit).Done?
       <==> Converted(src, offset, len, limit).Done? && Copyable(src, offset, len)
    ensures CopyConverted(src, offset, len, limit).Done? ==>
              CopyConverted(src, offset, len, limit) == Converted(src, offset, len, limit)
    ensures Converted(src, offset, len, limit).Done? && len > 0 ==> Copyable(src, offset, len)
  {
    if Converted(src, offset, len, limit).Done? {
      DoneExactlyWhen(src, offset, len, limit);
      if len > 0 { ReadableCopyable(src, offset, len); }
    }
    if Copyable(src, offset, len) {
      CopyableDiffersExactlyWhen(src, offset, len, limit);
      forall j | 0 <= j < len && FailsPastEnd(src, offset, len, limit, j)
        ensures !Converted(src, offset, len, limit).Done? && !CopyConverted(src, offset, len, limit).Done?
      {
        PastEndPanics(src, offset, len, limit, j);
      }
    }
  }

  lemma {:induction false} ReadableNonePast(src: StringArray, offset: nat, len: nat)
    requires offset + len < |src.offsets| && Readable(src, offset, len)
    ensures NonePast(src, offset, len)
    decreases len
  {
    if len > 0 {
      ReadableNonePast(src, offset, len - 1);
      assert Row(src, offset, len - 1).Done?;
    }
  }

  /** A window that fails on text that is not UTF-8 where its copy panics, and an empty window past the bytes
      that converts where its copy panics. */
  lemma CopyFailsOtherwise()
    ensures var src := StringArray([0, 2, 1], [0xFF, 0x61], None);
            Converted(src, 0, 2, 1) == Failed(TypeError) && CopyConverted(src, 0, 2, 1) == Panicked
    ensures var src := StringArray([5], [], None);
            Converted(src, 0, 0, 1) == Done(Categorical([], [], None)) && CopyConverted(src, 0, 0, 1) == Panicked
  {
    var src := StringArray([0, 2, 1], [0xFF, 0x61], None);
    var copy := SliceStrings(src, 0, 2);
    assert src.data[0..2] == [0xFF, 0x61];
    assert Row(src, 0, 0) == Failed(TypeError) && Row(copy, 0, 0) == Panicked;
    assert Convert(src, 0, 1, 1) == Failed(TypeError) && Convert(copy, 0, 1, 1) == Panicked;
  }

  /** The conversion depends on the rows only. */
  lemma {:induction false} SameRowsConvertAlike(a: StringArray, i: nat, b: StringArray, j: nat, n: nat, limit: nat)
    requires i + n <= a.Len() && j + n <= b.Len()
    requires forall k :: 0 <= k < n ==> Row(a, i, k) == Row(b, j, k)
    ensures Convert(a, i, n, limit) == Convert(b, j, n, limit)
    decreases n
  {
    if n > 0 { SameRowsConvertAlike(a, i, b, j, n - 1, limit); }
  }

  /** Categorical to string to categorical: rows that were once encoded are encoded the same again. */
  lemma CatStringCat(rows: seq<Bytes>, mask: Mask, limit: nat)
    requires forall i :: 0 <= i < |rows| ==> ValidUtf8(rows[i])
    requires mask.Some? ==> |mask.value| == |rows|
    requires |Concat(rows)| <= MAX_BYTES && |RowSet(rows)| <= limit
    ensures var s := StringsOf(rows, mask);
            var e := Encode(rows);
            s.Valid() && Converted(s, 0, |rows|, limit) == Done(Categorical(e.codes, e.uniq, mask))
  {
    StringsOfValid(rows, mask);
    StringsOfReadable(rows, mask);
    ConvertOutcome(StringsOf(rows, mask), 0, |rows|, limit);
  }

  lemma StringsOfValid(rows: seq<Bytes>, mask: Mask)
    requires (mask.Some? ==> |mask.value| == |rows|) && |Concat(rows)| <= MAX_BYTES
    ensures StringsOf(rows, mask).Valid()
  {
    forall i | 0 <= i <= |rows| ensures |Concat(rows[..i])| < USIZE_SPACE {
      ConcatLonger(rows, i);
    }
  }

  lemma StringsOfReadable(rows: seq<Bytes>, mask: Mask)
    requires forall i :: 0 <= i < |rows| ==> ValidUtf8(rows[i])
    ensures Readable(StringsOf(rows, mask), 0, |rows|) && Rows(StringsOf(rows, mask), 0, |rows|) == rows
  {
    var s := StringsOf(rows, mask);
    StringsOfShape(rows, mask);
    forall k | 0 <= k < |rows| ensures Row(s, 0, k) == Done(rows[k]) {
      assert HoldsRow(s, k, rows[k]);
    }
  }

  /** Rows of the lengths 0, 1, 2 and so on. */
  function Lengthening(n: nat): (rows: seq<Bytes>)
    ensures |rows| == n && forall i :: 0 <= i < n ==> |rows[i]| == i && forall k :: 0 <= k < i ==> rows[i][k] == 0x61
  {
    seq(n, i requires 0 <= i => seq(i, k => 0x61))
  }

  lemma {:induction false} AsciiValid(s: Bytes)
    requires forall k :: 0 <= k < |s| ==> s[k] == 0x61
    ensures ValidUtf8(s)
  {
    if s != [] { AsciiValid(s[1..]); }
  }

  lemma LengtheningDistinct(n: nat)
    ensures |RowSet(Lengthening(n))| == n
  {
    var rows := Lengthening(n);
    assert forall i, j :: 0 <= i < j < n ==> |rows[i]| < |rows[j]|;
    DistinctSize(rows);
  }

  lemma {:induction false} LengtheningBytes(n: nat)
    ensures |Concat(Lengthening(n))| <= n * n
  {
    if n > 0 {
      LengtheningBytes(n - 1);
      assert Lengthening(n)[..n - 1] == Lengthening(n - 1);
      assert (n - 1) * (n - 1) + (n - 1) <= n * n;
    }
  }

  /** Dictionaries of every size overflow on some readable rows, and the conversion panics: one row more than
      there are codes, no two alike. */
  lemma DictionaryPanics(limit: nat)
    ensures var src := StringsOf(Lengthening(limit + 1), None);
            Readable(src, 0, limit + 1) && Convert(src, 0, limit + 1, limit) == Panicked
  {
    var rows := Lengthening(limit + 1);
    forall i | 0 <= i < |rows| ensures ValidUtf8(rows[i]) { AsciiValid(rows[i]); }
    LengtheningDistinct(limit + 1);
    TooManyPanic(rows, limit);
  }

  lemma TooManyPanic(rows: seq<Bytes>, limit: nat)
    requires forall i :: 0 <= i < |rows| ==> ValidUtf8(rows[i])
    requires |RowSet(rows)| > limit
    ensures Readable(StringsOf(rows, None), 0, |rows|) && Convert(StringsOf(rows, None), 0, |rows|, limit) == Panicked
  {
    StringsOfReadable(rows, None);
    ConvertOutcome(StringsOf(rows, None), 0, |rows|, limit);
  }

  /** So do those of the 8-bit and 16-bit index types, on arrays that fit into memory. */
  lemma NarrowDictionariesPanic(limit: nat)
    requires limit == 0x100 || limit == 0x1_0000
    ensures var src := StringsOf(Lengthening(limit + 1), None);
            src.Valid() && Converted(src, 0, limit + 1, limit) == Panicked
  {
    LengtheningBytes(limit + 1);
    StringsOfValid(Lengthening(limit + 1), None);
    DictionaryPanics(limit);
  }

  // ----- index widths -----

  /** The codes are of an index type of this many bits. */
  predicate OfWidth(cat: Categorical, width: nat) {
    forall i :: 0 <= i < |cat.codes| ==> cat.codes[i] < Pow2(width)
  }

  lemma TruncateIsRemainder(codes: seq<nat>, width: nat)
    ensures forall i :: 0 <= i < |codes| ==> Truncate(codes[i], width) == codes[i] % Pow2(width)
  {
    forall i | 0 <= i < |codes| ensures Truncate(codes[i], width) == codes[i] % Pow2(width) {
      ShiftDivides(codes[i], width);
    }
  }

  /** `as` casts every code to an index type of this many bits. */
  function CatCast(src: Categorical, width: nat): (r: Categorical)
    ensures |r.codes| == |src.codes| && r.uniq == src.uniq && r.mask == src.mask
    ensures forall i :: 0 <= i < |src.codes| ==> r.codes[i] == src.codes[i] % Pow2(width)
  {
    TruncateIsRemainder(src.codes, width);
    Categorical(seq(|src.codes|, i requires 0 <= i < |src.codes| => Truncate(src.codes[i], width)), src.uniq, src.mask)
  }

  /** Narrowing fails exactly when a code does not fit, and otherwise keeps every code. */
  method CatNarrow(src: Categorical, max: nat) returns (r: Result<Categorical, MinarrowError>)
    ensures r.Err? <==> exists i :: 0 <= i < |src.codes| && src.codes[i] > max
    ensures r == if r.Err? then Err(Overflow) else Ok(src)
  {
    var data: seq<nat> := [];
    for i := 0 to |src.codes|
      invariant data == src.codes[..i]
      invariant forall k :: 0 <= k < i ==> src.codes[k] <= max
    {
      if src.codes[i] > max {
        return Err(Overflow);
      }
      data := data + [src.codes[i]];
    }
    assert src.codes[..|src.codes|] == src.codes;
    return Ok(Categorical(data, src.uniq, src.mask));
  }

  /** Widening loses nothing: each code survives the cast, the rows are the same, and narrowing again gives
      the array back. */
  lemma WidenKeepsRows(src: Categorical, width: nat, wider: nat)
    requires width <= wider && OfWidth(src, width)
    ensures CatCast(src, wider) == src && OfWidth(CatCast(src, wider), wider)
    ensures RowsOfCat(CatCast(src, wider)) == RowsOfCat(src)
  {
    Pow2Grows(width, wider);
    forall i | 0 <= i < |src.codes| ensures CatCast(src, wider).codes[i] == src.codes[i] < Pow2(wider) {
      TruncateFits(src.codes[i], wider);
    }
    assert CatCast(src, wider).codes == src.codes;
  }

  /** The same cast to a narrower type keeps the codes exactly when narrowing succeeds. */
  lemma CastKeepsExactlyWhen(src: Categorical, width: nat)
    ensures CatCast(src, width) == src <==> OfWidth(src, width)
  {
    if OfWidth(src, width) {
      WidenKeepsRows(src, width, width);
    }
    forall i | 0 <= i < |src.codes| ensures CatCast(src, width).codes[i] < Pow2(width) {
      TruncateBound(src.codes[i], width);
    }
  }

  // ----- categories given by codes -----

  predicate CodesInRange(codes: seq<Option<int>>, n: nat) {
    forall i :: 0 <= i < |codes| ==> codes[i].Some? ==> 0 <= codes[i].value < n
  }

  /** Builds a categorical from codes and categories: a missing code becomes a null. */
  method CategoricalFromCodes(codes: seq<Option<int>>, categories: seq<Bytes>, maxIndex: nat)
    returns (r: Result<Categorical, MinarrowError>)
    ensures r.Err? <==> !CodesInRange(codes, |categories|) || |categories| > maxIndex + 1
    ensures r.Err? ==> r.error == TypeError
    ensures r.Ok? ==>
              r.value.uniq == categories && |r.value.codes| == |codes|
              && r.value.mask.Some? && |r.value.mask.value| == |codes|
              && forall i :: 0 <= i < |codes| ==>
                   (r.value.mask.value[i] <==> codes[i].Some?)
                   && (codes[i].Some? ==> RowOf(r.value, i) == categories[codes[i].value])
  {
    for i := 0 to |codes|
      invariant forall k :: 0 <= k < i ==> codes[k].Some? ==> 0 <= codes[k].value < |categories|
    {
      if codes[i].Some? && (codes[i].value < 0 || codes[i].value >= |categories|) {
        return Err(TypeError);
      }
    }
    if |categories| > 0 && |categories| - 1 > maxIndex {
      return Err(TypeError);
    }
    var indices: seq<nat> := [];
    var mask := seq(|codes|, i => true);
    for row := 0 to |codes|
      invariant |indices| == row && |mask| == |codes|
      invariant forall k :: 0 <= k < row ==>
                  mask[k] == codes[k].Some? && indices[k] == (if codes[k].Some? then codes[k].value else 0)
      invariant forall k :: row <= k < |codes| ==> mask[k]
    {
      match codes[row] {
        case Some(code) =>
          indices := indices + [code];
        case None =>
          indices := indices + [0];
          mask := mask[row := false];
      }
    }
    return Ok(Categorical(indices, categories, Some(mask)));
  }
}
