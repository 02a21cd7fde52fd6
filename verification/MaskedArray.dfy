/** The nullable array: a value buffer and an optional validity mask, edited in place. */
module MaskedArrays {
  import opened Words
  import opened Options
  import opened Errors
  import opened Buffers
  import opened Bitmasks

  // ----- rows -----

  /** The logical rows: a cleared mask bit hides the value below it. */
  function RowsOf<T>(values: seq<T>, mask: Option<seq<bool>>): (rows: seq<Option<T>>)
    requires mask.Some? ==> |mask.value| == |values|
    ensures |rows| == |values|
    ensures forall i :: 0 <= i < |rows| ==>
              rows[i] == if mask.Some? && !mask.value[i] then None else Some(values[i])
  {
    seq(|values|, i requires 0 <= i < |values| => if mask.Some? && !mask.value[i] then None else Some(values[i]))
  }

  /** `rows` with `more` put in at `index`. */
  function Inserted<T>(rows: seq<T>, index: nat, more: seq<T>): seq<T>
    requires index <= |rows|
  {
    rows[..index] + more + rows[index..]
  }

  function Deleted<T>(rows: seq<T>, start: nat, end: nat): seq<T>
    requires start <= end <= |rows|
  {
    rows[..start] + rows[end..]
  }

  /** The mask as rows of bits, an absent mask standing for all set. */
  function MaskOrFull(mask: Option<seq<bool>>, n: nat): (bits: seq<bool>)
    requires mask.Some? ==> |mask.value| == n
    ensures |bits| == n
  {
    if mask.Some? then mask.value else AllSet(n)
  }

  function NullRows<T>(rows: seq<Option<T>>): nat {
    if rows == [] then 0 else NullRows(rows[..|rows| - 1]) + (if rows[|rows| - 1].None? then 1 else 0)
  }

  /** The cleared mask bits count the null rows. */
  lemma {:induction false} NullCountCounts<T>(values: seq<T>, mask: seq<bool>)
    requires |mask| == |values|
    ensures NullRows(RowsOf(values, Some(mask))) == Cleared(mask)
  {
    if values != [] {
      var n := |values| - 1;
      NullCountCounts(values[..n], mask[..n]);
      assert RowsOf(values, Some(mask))[..n] == RowsOf(values[..n], Some(mask[..n]));
    }
  }

  lemma {:induction false} NoMaskNoNulls<T>(values: seq<T>)
    ensures NullRows(RowsOf(values, None)) == 0
  {
    if values != [] {
      var n := |values| - 1;
      NoMaskNoNulls(values[..n]);
      assert RowsOf(values, None)[..n] == RowsOf(values[..n], None);
    }
  }

  lemma InsertedRows<T>(a: seq<T>, aMask: Option<seq<bool>>, b: seq<T>, bMask: Option<seq<bool>>, index: nat,
                        values: seq<T>, mask: Option<seq<bool>>)
    requires index <= |a|
    requires aMask.Some? ==> |aMask.value| == |a|
    requires bMask.Some? ==> |bMask.value| == |b|
    requires values == Inserted(a, index, b)
    requires mask.None? ==> aMask.None? && bMask.None?
    requires mask.Some? ==> mask.value == Inserted(MaskOrFull(aMask, |a|), index, MaskOrFull(bMask, |b|))
    ensures RowsOf(values, mask) == Inserted(RowsOf(a, aMask), index, RowsOf(b, bMask))
  {}

  lemma DeletedRows<T>(values: seq<T>, mask: Option<seq<bool>>, start: nat, end: nat, mask': Option<seq<bool>>)
    requires start <= end <= |values| && (mask.Some? ==> |mask.value| == |values|)
    requires mask' == if mask.None? then None else Some(Deleted(mask.value, start, end))
    ensures RowsOf(Deleted(values, start, end), mask') == Deleted(RowsOf(values, mask), start, end)
  {
    var a, b := RowsOf(Deleted(values, start, end), mask'), Deleted(RowsOf(values, mask), start, end);
    forall i | 0 <= i < |a| ensures a[i] == b[i] {}
  }

  lemma InsertedAtEnd<T>(rows: seq<T>, more: seq<T>)
    ensures Inserted(rows, |rows|, more) == rows + more
  {}

  /** Appending is inserting at the end. */
  lemma AppendedRows<T>(a: seq<T>, aMask: Option<seq<bool>>, b: seq<T>, bMask: Option<seq<bool>>,
                        mask: Option<seq<bool>>)
    requires aMask.Some? ==> |aMask.value| == |a|
    requires bMask.Some? ==> |bMask.value| == |b|
    requires mask.None? ==> aMask.None? && bMask.None?
    requires mask.Some? ==> mask.value == MaskOrFull(aMask, |a|) + MaskOrFull(bMask, |b|)
    ensures RowsOf(a + b, mask) == RowsOf(a, aMask) + RowsOf(b, bMask)
  {
    assert Inserted(a, |a|, b) == a + b;
    if mask.Some? {
      assert Inserted(MaskOrFull(aMask, |a|), |a|, MaskOrFull(bMask, |b|)) == mask.value;
    }
    InsertedRows(a, aMask, b, bMask, |a|, a + b, mask);
    assert Inserted(RowsOf(a, aMask), |a|, RowsOf(b, bMask)) == RowsOf(a, aMask) + RowsOf(b, bMask);
  }

  // ----- the loops of insert_rows -----

  /** Shifts `[index, origLen)` up by `gap`, working backwards so that nothing unread is overwritten. */
  method ShiftUp<T>(source: seq<T>, index: nat, origLen: nat, gap: nat) returns (values: seq<T>)
    requires index <= origLen && |source| == origLen + gap
    ensures |values| == |source|
    ensures values[..index] == source[..index] && values[index + gap..] == source[index..origLen]
  {
    values := source;
    for i := origLen downto index
      invariant |values| == |source|
      invariant forall j :: 0 <= j < i + gap ==> values[j] == source[j]
      invariant forall j :: i + gap <= j < origLen + gap ==> values[j] == source[j - gap]
    {
      values := values[i + gap := values[i]];
    }
  }

  /** Overwrites `[index, index + |other|)`. */
  method CopyInto<T>(source: seq<T>, index: nat, other: seq<T>) returns (values: seq<T>)
    requires index + |other| <= |source|
    ensures values == source[..index] + other + source[index + |other|..]
  {
    values := source;
    for i := 0 to |other|
      invariant values == source[..index] + other[..i] + source[index + i..]
    {
      values := values[index + i := other[i]];
    }
  }

  /** Makes room at the end, shifts the tail up and copies the new values into the gap. */
  method InsertValues<T>(source: seq<T>, index: nat, other: seq<T>, default: T) returns (values: seq<T>)
    requires index <= |source|
    ensures values == Inserted(source, index, other)
  {
    values := source + seq(|other|, i => default);
    ghost var roomy := values;
    values := ShiftUp(values, index, |source|, |other|);
    assert values[index + |other|..] == roomy[index..|source|] == source[index..];
    values := CopyInto(values, index, other);
  }

  // ----- the array -----

  class MaskedArray<T> {
    var data: Buffer<T>
    var nullMask: Bitmask?

    ghost predicate Valid()
      reads this, nullMask
    {
      data.Valid() && (nullMask != null ==> nullMask.Valid() && nullMask.len == data.Len())
    }

    ghost function MaskBits(): (m: Option<seq<bool>>)
      requires Valid()
      reads this, nullMask
      ensures m.Some? ==> |m.value| == data.Len()
    {
      if nullMask == null then None else Some(nullMask.Bits())
    }

    ghost function Rows(): (rows: seq<Option<T>>)
      requires Valid()
      reads this, nullMask
      ensures |rows| == data.Len()
    {
      RowsOf(data.Elems(), MaskBits())
    }

    /** The array and its mask are owned by no other array: what Rust's `&mut self` grants. */
    ghost predicate Apart(other: MaskedArray<T>)
      reads this, other
    {
      this != other && (nullMask != null ==> nullMask != other.nullMask)
    }

    /** A mask must have the data's length; `validate_null_mask_len` panics otherwise. */
    constructor (data: Buffer<T>, nullMask: Bitmask?)
      requires data.Valid() && (nullMask != null ==> nullMask.Valid() && nullMask.len == data.Len())
      ensures Valid() && this.data == data && this.nullMask == nullMask
    {
      this.data := data;
      this.nullMask := nullMask;
    }

    function Len(): nat
      reads this
    {
      data.Len()
    }

    function Get(i: nat): (v: Option<T>)
      requires Valid()
      reads this, nullMask
      ensures v == if i < Len() then Rows()[i] else None
    {
      if i >= Len() then None
      else if nullMask != null && !nullMask.Get(i) then None
      else Some(data.Elems()[i])
    }

    method Push(value: T)
      requires Valid()
      modifies this, nullMask
      ensures Valid() && nullMask == old(nullMask)
      ensures Rows() == old(Rows()) + [Some(value)]
    {
      data := Owned(data.Elems() + [value]);
      var i := Len() - 1;
      if nullMask != null {
        nullMask.Set(i, true);
      }
    }

    /** Appends a null over a default value, creating the mask when there is none. */
    method PushNull(default: T)
      requires Valid()
      modifies this, nullMask
      ensures Valid() && nullMask != null && (nullMask == old(nullMask) || fresh(nullMask))
      ensures Rows() == old(Rows()) + [None]
    {
      Push(default);
      ClearAny(Len() - 1);
    }

    /** Writes a value and marks it valid. */
    method Set(i: nat, value: T)
      requires Valid() && i < Len()
      modifies this, nullMask
      ensures Valid() && nullMask == old(nullMask)
      ensures Rows() == old(Rows())[i := Some(value)]
    {
      data := Owned(data.Elems()[i := value]);
      if nullMask != null {
        nullMask.Set(i, true);
      }
    }

    /** Marks a row null, creating the mask when there is none. Past the end the mask grows and the array
        does not, so the mask no longer fits. */
    method SetNull(i: nat)
      requires Valid()
      modifies this, nullMask
      ensures nullMask != null && (nullMask == old(nullMask) || fresh(nullMask)) && data == old(data)
      ensures Valid() <==> i < Len()
      ensures i < Len() ==> Rows() == old(Rows())[i := None]
      ensures nullMask.Valid() && nullMask.len == (if i < Len() then Len() else i + 1) && !nullMask.Bits()[i]
      ensures forall k :: 0 <= k < Len() && k != i ==> nullMask.Bits()[k] == MaskOrFull(old(MaskBits()), Len())[k]
    {
      if nullMask != null && nullMask.len <= i {
        nullMask.Resize(i + 1, true);
        nullMask.Set(i, false);
      } else {
        ClearAny(i);
      }
    }

    /** The remaining cases: a bit inside the mask, or of a new mask. */
    method ClearAny(i: nat)
      requires Valid() && (nullMask != null ==> i < Len())
      modifies this`nullMask, nullMask
      ensures nullMask != null && (nullMask == old(nullMask) || fresh(nullMask))
      ensures nullMask.Valid() && nullMask.len == (if i < Len() then Len() else i + 1) && !nullMask.Bits()[i]
      ensures forall k :: 0 <= k < Len() && k != i ==> nullMask.Bits()[k] == MaskOrFull(old(MaskBits()), Len())[k]
      ensures i < Len() ==> Valid() && Rows() == old(Rows())[i := None]
    {
      if nullMask != null {
        nullMask.Set(i, false);
      } else {
        var m := new Bitmask.NewSetAll(Len(), true);
        m.Set(i, false);
        nullMask := m;
      }
    }

    /** The number of null rows. */
    method NullCount() returns (count: nat)
      requires Valid()
      ensures count == NullRows(Rows())
    {
      if nullMask == null {
        NoMaskNoNulls(data.Elems());
        return 0;
      }
      NullCountCounts(data.Elems(), nullMask.Bits());
      count := nullMask.CountZeros();
    }

    /** A fresh array with the same rows. A shared window stays a window on the same allocation. */
    method Clone() returns (out: MaskedArray<T>)
      requires Valid()
      ensures fresh(out) && out.Valid() && (out.nullMask != null ==> fresh(out.nullMask))
      ensures out.Rows() == Rows() && out.data == data
    {
      var m: Bitmask? := null;
      if nullMask != null {
        m := new Bitmask.Wrap(nullMask.bits, nullMask.len);
      }
      out := new MaskedArray<T>(data, m);
    }

    /** A fresh array holding the rows `[offset, offset + n)`. */
    method SliceClone(offset: nat, n: nat) returns (out: MaskedArray<T>)
      requires Valid() && offset + n <= Len()
      ensures fresh(out) && out.Valid() && (out.nullMask != null ==> fresh(out.nullMask))
      ensures out.Rows() == Rows()[offset..offset + n]
    {
      var values := data.Elems()[offset..offset + n];
      var m: Bitmask? := null;
      if nullMask != null {
        m := nullMask.SliceClone(offset, n);
      }
      out := new MaskedArray<T>(Owned(values), m);
    }

    /** Removes the rows `[start, end)`. */
    method DeleteRange(start: nat, end: nat)
      requires Valid() && start <= end <= Len()
      modifies this, nullMask
      ensures Valid() && nullMask == old(nullMask)
      ensures Rows() == Deleted(old(Rows()), start, end)
    {
      data := Owned(data.Elems()[..start] + data.Elems()[end..]);
      if nullMask != null {
        nullMask.DeleteRange(start, end);
      }
      DeletedRows(old(data.Elems()), old(MaskBits()), start, end, MaskBits());
    }

    /** Both arrays' buffers adjoin, and so do their masks if they have any. */
    ghost predicate Adjoins(other: MaskedArray<T>)
      requires Valid() && other.Valid()
      reads this, nullMask, other, other.nullMask
    {
      data.AdjacentWindow(other.data).Some?
      && (nullMask == null <==> other.nullMask == null)
      && (nullMask != null && other.nullMask != null ==> nullMask.Adjoins(other.nullMask))
    }

    /** One window over both arrays, exactly when their buffers and masks lie next to each other. */
    method AdjacentWindow(other: MaskedArray<T>) returns (joined: MaskedArray?<T>)
      requires Valid() && other.Valid()
      ensures joined != null <==> Adjoins(other)
      ensures joined != null ==> joined.data == data.AdjacentWindow(other.data).value
      ensures joined != null ==> fresh(joined) && joined.Valid() && (joined.nullMask != null ==> fresh(joined.nullMask))
      ensures joined != null ==> joined.Rows() == Rows() + other.Rows()
    {
      var both := data.AdjacentWindow(other.data);
      if both.None? || ((nullMask == null) != (other.nullMask == null)) {
        return null;
      }
      var m: Bitmask? := null;
      if nullMask != null {
        m := nullMask.AdjacentWindow(other.nullMask);
        if m == null {
          return null;
        }
      }
      joined := new MaskedArray<T>(both.value, m);
      AppendedRows(data.Elems(), MaskBits(), other.data.Elems(), other.MaskBits(), joined.MaskBits());
    }

    /** Appends another array's rows, joining adjacent windows without copying when it can. */
    method AppendArray(other: MaskedArray<T>)
      requires Valid() && other.Valid() && Apart(other)
      modifies this, nullMask
      ensures Valid() && (nullMask == null || nullMask == old(nullMask) || fresh(nullMask))
      ensures Rows() == old(Rows()) + other.Rows()
      ensures other.Len() > 0 && old(Adjoins(other)) ==> data == old(data.AdjacentWindow(other.data)).value
    {
      var origLen, otherLen := Len(), other.Len();
      if otherLen == 0 {
        return;
      }
      var joined := AdjacentWindow(other);
      if joined != null {
        data := joined.data;
        nullMask := joined.nullMask;
        return;
      }
      data := Owned(data.Elems() + other.data.Elems());
      if nullMask != null && other.nullMask != null {
        nullMask.ExtendFromBitmask(other.nullMask);
      } else if nullMask != null {
        AppendValid(nullMask, otherLen);
      } else if other.nullMask != null {
        nullMask := MaskAround(origLen, origLen, other.nullMask);
        InsertedAtEnd(MaskOrFull(None, origLen), other.MaskBits().value);
      }
      AppendedRows(old(data.Elems()), old(MaskBits()), other.data.Elems(), other.MaskBits(), MaskBits());
    }

    ghost function StoredBytes(): seq<u8>
      requires Valid()
      reads this, nullMask
    {
      if nullMask == null then [] else nullMask.bits.Elems()
    }

    /** The resize of `append_range` reaches no spare byte holding a cleared bit. */
    ghost predicate SpareRoomIsSet(other: MaskedArray<T>, n: nat)
      requires Valid() && other.Valid()
      reads this, nullMask, other, other.nullMask
    {
      nullMask != null && other.nullMask == null && n > 0 ==>
        SpareBitsAre(nullMask.bits.Elems(), Len(), Len() + n, true)
    }

    /** Appends the rows `[offset, offset + n)` of another array. When only this array has a mask the
        result is the concatenation exactly if the mask's spare bytes, if any, are set. */
    method AppendRange(other: MaskedArray<T>, offset: nat, n: nat) returns (r: Result<(), MinarrowError>)
      requires Valid() && other.Valid() && Apart(other)
      modifies this, nullMask
      ensures Valid() && (nullMask == null || nullMask == old(nullMask) || fresh(nullMask))
      ensures r == if n > 0 && offset + n > other.Len() then Err(IndexError) else Ok(())
      ensures n == 0 || r.Err? ==> Rows() == old(Rows())
      ensures n > 0 && r.Ok? ==>
                (Rows() == old(Rows()) + old(other.Rows())[offset..offset + n] <==> old(SpareRoomIsSet(other, n)))
      ensures n > 0 && r.Ok? ==>
                MaskBits() ==
                MaskAfterRange(old(MaskBits()), old(StoredBytes()), old(Len()), old(other.MaskBits()), offset, n)
    {
      if n == 0 {
        return Ok(());
      }
      if offset + n > other.Len() {
        return Err(IndexError);
      }
      RangeAppended(data.Elems(), MaskBits(), StoredBytes(), other.data.Elems(), other.MaskBits(), offset, n);
      AppendInBounds(other, offset, n);
      return Ok(());
    }

    /** The values, then the mask. */
    method AppendInBounds(other: MaskedArray<T>, offset: nat, n: nat)
      requires Valid() && other.Valid() && Apart(other) && offset + n <= other.Len()
      modifies this, nullMask
      ensures Valid() && (nullMask == null || nullMask == old(nullMask) || fresh(nullMask))
      ensures data.Elems() == old(data.Elems()) + old(other.data.Elems())[offset..offset + n]
      ensures MaskBits() ==
              MaskAfterRange(old(MaskBits()), old(StoredBytes()), old(Len()), old(other.MaskBits()), offset, n)
    {
      var origLen := Len();
      data := Owned(data.Elems() + other.data.Elems()[offset..offset + n]);
      ExtendMask(origLen, other, offset, n);
    }

    /** The mask's part of appending a range. */
    method ExtendMask(origLen: nat, other: MaskedArray<T>, offset: nat, n: nat)
      requires data.Valid() && data.Len() == origLen + n
      requires nullMask != null ==> nullMask.Valid() && nullMask.len == origLen
      requires other.Valid() && Apart(other) && offset + n <= other.Len()
      modifies this`nullMask, nullMask
      ensures Valid() && (nullMask == null || nullMask == old(nullMask) || fresh(nullMask))
      ensures MaskBits() ==
              MaskAfterRange(if old(nullMask) == null then None else Some(old(nullMask.Bits())),
                             if old(nullMask) == null then [] else old(nullMask.bits.Elems()),
                             origLen, other.MaskBits(), offset, n)
    {
      if nullMask != null && other.nullMask != null {
        nullMask.ExtendFromBitmaskRange(other.nullMask, offset, n);
      } else if nullMask != null {
        nullMask.Resize(origLen + n, true);
      } else if other.nullMask != null {
        var m := new Bitmask.NewSetAll(origLen, true);
        m.ExtendFromBitmaskRange(other.nullMask, offset, n);
        nullMask := m;
      }
    }

    /** Inserts another array's rows at `index`, shifting values and mask bits in place. */
    method InsertRows(index: nat, other: MaskedArray<T>, default: T) returns (r: Result<(), MinarrowError>)
      requires Valid() && other.Valid() && Apart(other)
      modifies this, nullMask
      ensures Valid() && (nullMask == null || nullMask == old(nullMask) || fresh(nullMask))
      ensures r == if index > old(Len()) then Err(IndexError) else Ok(())
      ensures Rows() == if r.Ok? then Inserted(old(Rows()), index, other.Rows()) else old(Rows())
    {
      var origLen, otherLen := Len(), other.Len();
      if index > origLen {
        return Err(IndexError);
      }
      if otherLen == 0 {
        assert Inserted(Rows(), index, other.Rows()) == Rows();
        return Ok(());
      }
      var values := InsertValues(data.Elems(), index, other.data.Elems(), default);
      data := Owned(values);
      if nullMask != null {
        InsertBits(nullMask, index, other.nullMask, otherLen);
      } else if other.nullMask != null {
        nullMask := MaskAround(origLen, index, other.nullMask);
      }
      InsertedRows(old(data.Elems()), old(MaskBits()), other.data.Elems(), other.MaskBits(), index, values, MaskBits());
      return Ok(());
    }

    /** Cuts the array in two at `index`, consuming it. It panics on a shared buffer it has to cut: the data's, or
        the mask's on a byte boundary. */
    method Split(index: nat) returns (r: Outcome<(MaskedArray<T>, MaskedArray<T>)>)
      requires Valid()
      modifies this, nullMask
      ensures r.Failed? <==> !(0 < index < old(Len()))
      ensures r.Failed? ==> r.error == IndexError && Valid() && Rows() == old(Rows())
      ensures r.Panicked? <==>
              0 < index < old(Len())
              && (old(data.Shared?) || (old(nullMask != null && nullMask.bits.Shared?) && index % 8 == 0))
      ensures r.Done? ==>
                var (before, after) := r.value;
                fresh(before) && fresh(after) && before.Valid() && after.Valid()
                && before.nullMask == old(nullMask) && (after.nullMask != null ==> fresh(after.nullMask))
                && before.Apart(after)
                && before.Rows() == old(Rows())[..index] && after.Rows() == old(Rows())[index..]
    {
      if index == 0 || index >= Len() {
        return Failed(IndexError);
      }
      if data.Shared? || (nullMask != null && index % 8 == 0 && nullMask.bits.Shared?) {
        return Panicked;
      }
      var values := data.Elems();
      data := Owned(values[..index]);
      var afterMask: Bitmask? := null;
      if nullMask != null {
        afterMask := nullMask.SplitOff(index);
      }
      var before := new MaskedArray<T>(data, nullMask);
      var after := new MaskedArray<T>(Owned(values[index..]), afterMask);
      return Done((before, after));
    }
  }

  /** When only the left array has a mask: the resize appends valid rows exactly if no spare byte of the
      mask holds a cleared bit in reach. */
  lemma ResizedRows<T>(a: seq<T>, bytes: seq<u8>, b: seq<T>, mask: seq<bool>)
    requires |a| <= 8 * |bytes| && mask == BitsAfterResize(bytes, |a|, |a| + |b|, true)
    ensures RowsOf(a + b, Some(mask)) == RowsOf(a, Some(BitsOf(bytes, |a|))) + RowsOf(b, None)
       <==> SpareBitsAre(bytes, |a|, |a| + |b|, true)
  {
    var rows, wanted := RowsOf(a + b, Some(mask)), RowsOf(a, Some(BitsOf(bytes, |a|))) + RowsOf(b, None);
    if rows == wanted {
      forall k | 8 * ByteCount(|a|) <= k < 8 * |bytes| && k < |a| + |b| ensures BitAt(bytes, k) == true {
        assert rows[k] == wanted[k] && wanted[k].Some?;
      }
    }
  }

  /** The mask of an array of `len` rows, stored in some bytes, after a range is appended. */
  ghost function MaskAfterRange(mask: Option<seq<bool>>, stored: seq<u8>, len: nat,
                                other: Option<seq<bool>>, offset: nat, n: nat): (m: Option<seq<bool>>)
    requires (mask.Some? ==> len <= 8 * |stored|) && (other.Some? ==> offset + n <= |other.value|)
  {
    match (mask, other)
    case (None, None) => None
    case (None, Some(b)) => Some(AllSet(len) + b[offset..offset + n])
    case (Some(a), Some(b)) => Some(a + b[offset..offset + n])
    case (Some(_), None) => Some(BitsAfterResize(stored, len, len + n, true))
  }

  lemma RangeAppended<T>(a: seq<T>, aMask: Option<seq<bool>>, stored: seq<u8>,
                         b: seq<T>, bMask: Option<seq<bool>>, offset: nat, n: nat)
    requires aMask.Some? ==> |a| <= 8 * |stored| && aMask.value == BitsOf(stored, |a|)
    requires offset + n <= |b| && (bMask.Some? ==> |bMask.value| == |b|)
    ensures var mask := MaskAfterRange(aMask, stored, |a|, bMask, offset, n);
            (mask.Some? ==> |mask.value| == |a| + n)
            && (RowsOf(a + b[offset..offset + n], mask) == RowsOf(a, aMask) + RowsOf(b, bMask)[offset..offset + n]
                <==> (aMask.Some? && bMask.None? && n > 0 ==> SpareBitsAre(stored, |a|, |a| + n, true)))
  {
    var values, added := b[offset..offset + n], if bMask.None? then None else Some(bMask.value[offset..offset + n]);
    assert RowsOf(b, bMask)[offset..offset + n] == RowsOf(values, added);
    var mask := MaskAfterRange(aMask, stored, |a|, bMask, offset, n);
    if aMask.Some? && bMask.None? {
      ResizedRows(a, stored, values, mask.value);
    } else {
      AppendedRows(a, aMask, values, added, mask);
    }
  }

  /** Opens a gap of `n` bits at `index` and fills it from `other`, or with set bits without one. */
  method InsertBits(mask: Bitmask, index: nat, other: Bitmask?, n: nat)
    requires mask.Valid() && index <= mask.len && mask != other
    requires other != null ==> other.Valid() && other.len == n
    modifies mask
    ensures mask.Valid()
    ensures mask.Bits() ==
            Inserted(old(mask.Bits()), index, MaskOrFull(if other == null then None else Some(other.Bits()), n))
  {
    OpenGap(mask, index, n);
    FillGap(mask, index, other, n, MaskOrFull(if other == null then None else Some(other.Bits()), n));
  }

  method OpenGap(mask: Bitmask, index: nat, n: nat)
    requires mask.Valid() && index <= mask.len
    modifies mask
    ensures mask.Valid() && mask.len == old(mask.len) + n
    ensures mask.Bits()[..index] == old(mask.Bits())[..index] && mask.Bits()[index + n..] == old(mask.Bits())[index..]
  {
    var origLen := mask.len;
    ghost var was := mask.Bits();
    mask.Resize(origLen + n, true);
    ghost var resized := mask.Bits();
    mask.ShiftUp(index, origLen, n);
    OpenedGap(was, resized, index, n, mask.Bits());
  }

  lemma OpenedGap(was: seq<bool>, resized: seq<bool>, index: nat, n: nat, bits: seq<bool>)
    requires index <= |was| && |resized| == |bits| == |was| + n
    requires forall k :: 0 <= k < |was| ==> resized[k] == was[k]
    requires forall k :: 0 <= k < |bits| ==> bits[k] == resized[if index + n <= k then k - n else k]
    ensures bits[..index] == was[..index] && bits[index + n..] == was[index..]
  {}

  method FillGap(mask: Bitmask, index: nat, other: Bitmask?, n: nat, ghost filler: seq<bool>)
    requires mask.Valid() && index + n <= mask.len && mask != other
    requires other != null ==> other.Valid() && other.len == n
    requires filler == if other == null then AllSet(n) else other.Bits()
    modifies mask
    ensures mask.Valid()
    ensures mask.Bits() == old(mask.Bits())[..index] + filler + old(mask.Bits())[index + n..]
  {
    if other != null {
      mask.CopyFrom(index, other);
    } else {
      mask.SetRange(index, n);
    }
  }

  /** A mask for rows that had none, around the rows of a masked array. */
  method MaskAround(origLen: nat, index: nat, other: Bitmask) returns (mask: Bitmask)
    requires other.Valid() && index <= origLen
    ensures fresh(mask) && mask.Valid()
    ensures mask.Bits() == Inserted(AllSet(origLen), index, other.Bits())
  {
    mask := new Bitmask.NewSetAll(origLen + other.len, true);
    mask.CopyFrom(index, other);
    AllSetAround(origLen, index, other.Bits());
  }

  lemma AllSetAround(origLen: nat, index: nat, filler: seq<bool>)
    requires index <= origLen
    ensures var full := AllSet(origLen + |filler|);
            full[..index] + filler + full[index + |filler|..] == Inserted(AllSet(origLen), index, filler)
  {}

  /** Sets `n` more bits past the end of a mask, one at a time. */
  method AppendValid(mask: Bitmask, n: nat)
    requires mask.Valid()
    modifies mask
    ensures mask.Valid() && mask.Bits() == old(mask.Bits()) + AllSet(n)
  {
    var start := mask.len;
    for i := start to start + n
      invariant mask.Valid() && mask.Bits() == old(mask.Bits()) + AllSet(i - start)
    {
      mask.Set(i, true);
      assert AllSet(i - start) + [true] == AllSet(i + 1 - start);
    }
  }
}
