/** How the editing operations undo and stand in for one another, on the arrays themselves. */
module EditLaws {
  import opened Options
  import opened Errors
  import opened Words
  import opened Buffers
  import opened Bitmasks
  import opened MaskedArrays

  /** Appending the second half of a split to the first restores the array. The split ends as it does. */
  method SplitThenAppend<T>(a: MaskedArray<T>, index: nat) returns (r: Outcome<MaskedArray<T>>)
    requires a.Valid()
    modifies a, a.nullMask
    ensures r.Failed? <==> !(0 < index < old(a.Len()))
    ensures r.Panicked? <==>
            0 < index < old(a.Len())
            && (old(a.data.Shared?) || (old(a.nullMask != null && a.nullMask.bits.Shared?) && index % 8 == 0))
    ensures r.Done? ==> r.value.Valid() && r.value.Rows() == old(a.Rows())
  {
    var halves := a.Split(index);
    match halves
    case Failed(error) => return Failed(error);
    case Panicked => return Panicked;
    case Done((before, after)) =>
      before.AppendArray(after);
      SplitJoins(old(a.Rows()), index);
      return Done(before);
  }

  lemma SplitJoins<T>(rows: seq<T>, index: nat)
    requires index <= |rows|
    ensures rows[..index] + rows[index..] == rows
  {}

  /** Deleting the rows just inserted restores the array. */
  method InsertThenDelete<T>(a: MaskedArray<T>, index: nat, other: MaskedArray<T>, default: T)
    requires a.Valid() && other.Valid() && a.Apart(other) && index <= a.Len()
    modifies a, a.nullMask
    ensures a.Valid() && a.Rows() == old(a.Rows())
  {
    var n := other.Len();
    ghost var more := other.Rows();
    var _ := a.InsertRows(index, other, default);
    a.DeleteRange(index, index + n);
    DeletedInserted(old(a.Rows()), index, more);
  }

  lemma DeletedInserted<T>(rows: seq<T>, index: nat, more: seq<T>)
    requires index <= |rows|
    ensures Deleted(Inserted(rows, index, more), index, index + |more|) == rows
  {
    var i := Inserted(rows, index, more);
    assert i[..index] == rows[..index];
    assert i[index + |more|..] == rows[index..];
  }

  /** Two arrays with the same rows: inserting at the end of one and appending to the other agree. */
  method InsertAtEndIsAppend<T>(a: MaskedArray<T>, b: MaskedArray<T>, other: MaskedArray<T>, default: T)
    requires a.Valid() && b.Valid() && other.Valid()
    requires a.Apart(b) && a.Apart(other) && b.Apart(other) && a.Rows() == b.Rows()
    modifies a, a.nullMask, b, b.nullMask
    ensures a.Valid() && b.Valid() && a.Rows() == b.Rows()
  {
    ghost var rows, more := a.Rows(), other.Rows();
    var _ := a.InsertRows(a.Len(), other, default);
    b.AppendArray(other);
    InsertedAtEnd(rows, more);
  }

  /** Appending a range and appending a copy of that range agree exactly when the first one's mask has no
      cleared bit in reach past its end. */
  method AppendRangeIsAppendOfSlice<T>(a: MaskedArray<T>, b: MaskedArray<T>, other: MaskedArray<T>, offset: nat, n: nat)
    requires a.Valid() && b.Valid() && other.Valid() && offset + n <= other.Len()
    requires a.Apart(b) && a.Apart(other) && b.Apart(other) && a.Rows() == b.Rows()
    modifies a, a.nullMask, b, b.nullMask
    ensures a.Valid() && b.Valid()
    ensures a.Rows() == b.Rows() <==> old(a.SpareRoomIsSet(other, n))
  {
    var slice := other.SliceClone(offset, n);
    var _ := a.AppendRange(other, offset, n);
    b.AppendArray(slice);
  }

  /** Three rows whose mask is stored in two bytes: of six rows appended, none of them null, the last comes out
      null. */
  method AppendRangeAddsNull() returns (a: MaskedArray<int>, other: MaskedArray<int>)
    ensures a.Valid() && other.Valid() && a.Len() == 9 && a.Rows()[8] == None
    ensures other.nullMask == null && other.Len() == 6
  {
    a := ThreeRows();
    other := new MaskedArray<int>(Owned([0, 0, 0, 0, 0, 0]), null);
    AppendSixRows(a, other);
  }

  method AppendSixRows(a: MaskedArray<int>, other: MaskedArray<int>)
    requires a.Valid() && other.Valid() && a.Apart(other)
    requires a.Len() == 3 && a.nullMask != null && a.StoredBytes() == [7, 0]
    requires other.Len() == 6 && other.nullMask == null
    modifies a, a.nullMask
    ensures a.Valid() && a.Len() == 9 && a.Rows()[8] == None
  {
    ghost var mask := MaskAfterRange(a.MaskBits(), a.StoredBytes(), 3, other.MaskBits(), 0, 6);
    NinthBitIsClear();
    assert mask == Some(BitsAfterResize([7, 0], 3, 9, true));
    var _ := a.AppendRange(other, 0, 6);
    assert a.MaskBits() == mask;
  }

  method ThreeRows() returns (a: MaskedArray<int>)
    ensures fresh(a) && a.Valid() && a.nullMask != null && fresh(a.nullMask)
    ensures a.Len() == 3 && a.StoredBytes() == [7, 0]
  {
    NinthBitIsClear();
    var m := new Bitmask.Wrap(Owned([7, 0]), 3);
    a := new MaskedArray<int>(Owned([1, 2, 3]), m);
  }

  lemma NinthBitIsClear()
    ensures TrailingClear([7, 0], 3) && !BitsAfterResize([7, 0], 3, 9, true)[8]
  {
    var bytes: seq<u8> := [7, 0];
    assert !BitAt(bytes, 8);
    assert !BitAt(bytes, 3) && !BitAt(bytes, 4) && !BitAt(bytes, 5) && !BitAt(bytes, 6) && !BitAt(bytes, 7);
  }
}
