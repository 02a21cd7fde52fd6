/** A column as a value, and what the edits of a Python array handle do to it. */
module Columns {
  import opened Options
  import opened MaskedArrays
  import opened Bitmasks

  datatype Col<V> = Col(values: seq<V>, mask: Option<seq<bool>>) {
    predicate Valid() {
      mask.Some? ==> |mask.value| == |values|
    }

    function Rows(): (rows: seq<Option<V>>)
      requires Valid()
      ensures |rows| == |values|
    {
      RowsOf(values, mask)
    }

    /** `null_bools`: one flag per row, true where it is null. */
    function NullBools(): (flags: seq<bool>)
      requires Valid()
      ensures |flags| == |values|
      ensures forall i :: 0 <= i < |flags| ==> flags[i] == Rows()[i].None?
    {
      seq(|values|, i requires 0 <= i < |values| => mask.Some? && !mask.value[i])
    }

    /** The number of null rows. */
    function NullCount(): (n: nat)
      requires Valid()
      ensures n == NullRows(Rows())
    {
      if mask.None? then
        NoMaskNoNulls(values);
        0
      else
        NullCountCounts(values, mask.value);
        Cleared(mask.value)
    }

    function Push(v: V): (c: Col<V>)
      requires Valid()
      ensures c.Valid() && c.Rows() == Rows() + [Some(v)]
      ensures c.values == values + [v] && c.mask.Some? == mask.Some?
    {
      Col(values + [v], if mask.Some? then Some(mask.value + [true]) else None)
    }

    function PushNull(default: V): (c: Col<V>)
      requires Valid()
      ensures c.Valid() && c.Rows() == Rows() + [None]
      ensures c.values == values + [default]
    {
      Col(values + [default], Some(MaskOrFull(mask, |values|) + [false]))
    }

    function Set(i: nat, v: V): (c: Col<V>)
      requires Valid() && i < |values|
      ensures c.Valid() && c.Rows() == Rows()[i := Some(v)]
      ensures c.values == values[i := v] && c.mask.Some? == mask.Some?
    {
      Col(values[i := v], if mask.Some? then Some(mask.value[i := true]) else None)
    }

    /** `set_null_bit`: a mask is made when there is none. No value changes, so clearing a null shows the one
        below it. */
    function SetNullBit(i: nat, isNull: bool): (c: Col<V>)
      requires Valid() && i < |values|
      ensures c.Valid() && c.Rows() == Rows()[i := if isNull then None else Some(values[i])]
      ensures c.values == values && c.mask.Some?
    {
      Col(values, Some(MaskOrFull(mask, |values|)[i := !isNull]))
    }

    function Slice(offset: nat, n: nat): (c: Col<V>)
      requires Valid() && offset + n <= |values|
      ensures c.Valid() && c.Rows() == Rows()[offset..offset + n]
      ensures c.values == values[offset..offset + n] && c.mask.Some? == mask.Some?
    {
      Col(values[offset..offset + n], if mask.Some? then Some(mask.value[offset..offset + n]) else None)
    }

    lemma SliceAll()
      requires Valid()
      ensures Slice(0, |values|) == this
    {
      if mask.Some? { assert mask.value[0..|values|] == mask.value; }
    }

    lemma SliceSlice(a: nat, n: nat, b: nat, m: nat)
      requires Valid() && a + n <= |values| && b + m <= n
      ensures Slice(a, n).Slice(b, m) == Slice(a + b, m)
    {
      WindowOfWindow(values, a, n, b, m);
      if mask.Some? { WindowOfWindow(mask.value, a, n, b, m); }
    }
  }

  lemma WindowOfWindow<T>(s: seq<T>, a: nat, n: nat, b: nat, m: nat)
    requires a + n <= |s| && b + m <= n
    ensures s[a..a + n][b..b + m] == s[a + b..a + b + m]
  {
    var l, r := s[a..a + n][b..b + m], s[a + b..a + b + m];
    assert forall i :: 0 <= i < m ==> l[i] == s[a + b + i] && r[i] == s[a + b + i];
    assert l == r;
  }
}
