/** The value buffer: an owned vector, or a window over a shared read-only allocation. */
module Buffers {
  import opened Options

  /** One heap allocation. Its cells never change while it is shared. */
  class Allocation<T> {
    const cells: seq<T>

    constructor (cells: seq<T>)
      ensures this.cells == cells
    {
      this.cells := cells;
    }
  }

  /** A reference-counted slice of an allocation. Two slices start at the same address exactly when
      they name the same allocation and base. */
  datatype SharedBuffer<T> = SharedBuffer(alloc: Allocation<T>, base: nat, len: nat) {
    ghost predicate Valid() {
      base + len <= |alloc.cells|
    }

    predicate SameAddress(other: SharedBuffer<T>) {
      alloc == other.alloc && base == other.base
    }
  }

  datatype Buffer<T> =
    | Owned(vec: seq<T>)
    | Shared(owner: SharedBuffer<T>, offset: nat, len: nat)
  {
    ghost predicate Valid() {
      Shared? ==> owner.Valid() && offset + len <= owner.len
    }

    function Elems(): (s: seq<T>)
      requires Valid()
      ensures |s| == Len()
    {
      match this
      case Owned(vec) => vec
      case Shared(owner, offset, len) => owner.alloc.cells[owner.base + offset..owner.base + offset + len]
    }

    function Len(): nat {
      match this
      case Owned(vec) => |vec|
      case Shared(_, _, len) => len
    }

    /** Shortens the buffer. A shared window narrows without copying. */
    function TruncateTo(n: nat): (r: Buffer<T>)
      requires Valid()
      ensures r.Valid()
      ensures r.Elems() == if n < Len() then Elems()[..n] else Elems()
    {
      if n >= Len() then this
      else match this
        case Owned(vec) => Owned(vec[..n])
        case Shared(owner, offset, _) => Shared(owner, offset, n)
    }

    /** Joins two windows that lie next to each other in one allocation. */
    function AdjacentWindow(next: Buffer<T>): (r: Option<Buffer<T>>)
      requires Valid() && next.Valid()
      ensures r.Some? ==> r.value.Valid() && r.value.Elems() == Elems() + next.Elems()
      ensures r.Some? <==>
              Shared? && next.Shared? && owner.SameAddress(next.owner) && offset + len == next.offset
    {
      match (this, next)
      case (Shared(a, aOffset, aLen), Shared(b, bOffset, bLen)) =>
        if !a.SameAddress(b) || aOffset + aLen != bOffset then None
        else Some(Shared(if b.len >= a.len then b else a, aOffset, aLen + bLen))
      case _ => None
    }
  }
}
