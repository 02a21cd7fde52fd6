/** Python array handles over two levels of shared, copy-on-write storage. */
module Handles {
  import opened Options
  import opened Errors
  import opened Columns
  import opened MaskedArrays

  /** What an outer shared cell holds: an array, a named array with its cached null count, or a window.
      Each refers to a typed array that other cells may share. */
  datatype Outer =
    | Plain(typed: nat)
    | Named(typed: nat, nullCount: nat)
    | View(typed: nat, offset: nat, len: nat)

  /** An edit through a handle. A value the array cannot represent is `None`. */
  datatype Edit<V> =
    | Push(value: Option<V>)
    | PushNull
    | Set(i: nat, value: Option<V>)
    | SetNull(i: nat)
    | ClearNull(i: nat)
  {
    /** The index is one of the column's rows. */
    predicate InRange(col: Col<V>) {
      (Set? || SetNull? || ClearNull?) ==> i < |col.values|
    }

    predicate Unsupported() {
      (Push? || Set?) && value.None?
    }

    /** The plain edit of a column. */
    function Apply(col: Col<V>, default: V): (r: Col<V>)
      requires col.Valid() && InRange(col) && !Unsupported()
      ensures r.Valid()
    {
      match this
      case Push(v) => col.Push(v.value)
      case PushNull => col.PushNull(default)
      case Set(i, v) => col.Set(i, v.value)
      case SetNull(i) => col.SetNullBit(i, true)
      case ClearNull(i) => col.SetNullBit(i, false)
    }
  }

  class Store<V> {
    var typed: map<nat, Col<V>>
    var outer: map<nat, Outer>
    var handles: map<nat, nat>
    var next: nat

    /** References lead somewhere, windows are in range, cached null counts are right. */
    ghost predicate Valid()
      reads this
    {
      (forall h :: h in handles ==> handles[h] in outer)
      && (forall o :: o in outer ==> o < next && outer[o].typed in typed && CellOk(outer[o]))
      && (forall t :: t in typed ==> t < next && typed[t].Valid())
    }

    ghost predicate CellOk(c: Outer)
      reads this
    {
      c.typed in typed && typed[c.typed].Valid() &&
      match c
      case Plain(_) => true
      case Named(t, n) => n == typed[t].NullCount()
      case View(t, offset, len) => offset + len <= |typed[t].values|
    }

    /** The column a cell shows. */
    function Shown(c: Outer): (col: Col<V>)
      requires CellOk(c)
      reads this
    {
      match c
      case Plain(t) => typed[t]
      case Named(t, _) => typed[t]
      case View(t, offset, len) => typed[t].Slice(offset, len)
    }

    /** What each handle reads. */
    ghost function Cols(): (m: map<nat, Col<V>>)
      requires Valid()
      reads this
      ensures m.Keys == handles.Keys && AllColsValid(m)
    {
      map h | h in handles :: Shown(outer[handles[h]])
    }

    /** The handles that hold an outer cell. Their number is its strong count. */
    function Holders(o: nat): set<nat>
      reads this
    {
      set h | h in handles && handles[h] == o
    }

    /** The outer cells that hold a typed array. */
    function Sharers(t: nat): set<nat>
      reads this
    {
      set o | o in outer && outer[o].typed == t
    }

    constructor ()
      ensures Valid() && Cols() == map[]
    {
      typed, outer, handles, next := map[], map[], map[], 0;
    }

    /** `Arc::new` of a typed array. */
    method AddTyped(col: Col<V>) returns (t: nat)
      requires Valid() && col.Valid()
      modifies this
      ensures Valid() && Cols() == old(Cols()) && outer == old(outer) && handles == old(handles)
      ensures t !in old(typed) && typed == old(typed)[t := col]
      ensures forall o :: o in outer ==> outer[o].typed != t
    {
      t := next;
      next := next + 1;
      typed := typed[t := col];
    }

    /** `Arc::new` of an outer value. No handle holds it yet. */
    method AddOuter(c: Outer) returns (o: nat)
      requires Valid() && CellOk(c)
      modifies this
      ensures Valid() && Cols() == old(Cols()) && typed == old(typed) && handles == old(handles)
      ensures o !in old(outer) && outer == old(outer)[o := c]
      ensures forall h :: h in handles ==> handles[h] != o
    {
      o := next;
      next := next + 1;
      outer := outer[o := c];
    }

    /** Points an outer cell at an equal copy of its typed array. */
    method Repoint(o: nat, t: nat)
      requires Valid() && o in outer && t in typed && typed[t] == typed[outer[o].typed]
      modifies this
      ensures Valid() && Cols() == old(Cols()) && handles == old(handles) && typed == old(typed)
      ensures outer == old(outer)[o := Retarget(old(outer[o]), t)]
    {
      outer := outer[o := Retarget(outer[o], t)];
    }

    /** Points a handle at a cell. */
    method Rebind(h: nat, o: nat)
      requires Valid() && o in outer
      modifies this
      ensures Valid() && handles == old(handles)[h := o] && outer == old(outer) && typed == old(typed)
      ensures Cols() == old(Cols())[h := Shown(outer[o])]
    {
      handles := handles[h := o];
    }

    /** A strong count of one: no other handle holds the cell. */
    lemma SoleHolder(h: nat)
      requires h in handles
      ensures |Holders(handles[h])| == 1 <==> forall h' :: h' in handles && h' != h ==> handles[h'] != handles[h]
    {
      OnlyOne(Holders(handles[h]), h);
      assert forall h' :: h' in handles && handles[h'] == handles[h] <==> h' in Holders(handles[h]);
    }

    lemma SoleSharer(o: nat)
      requires o in outer
      ensures |Sharers(outer[o].typed)| == 1 <==>
              forall o' :: o' in outer && o' != o ==> outer[o'].typed != outer[o].typed
    {
      OnlyOne(Sharers(outer[o].typed), o);
      assert forall o' :: o' in outer && outer[o'].typed == outer[o].typed <==> o' in Sharers(outer[o].typed);
    }

    /** `null_count`: the cached count of a named array, otherwise counted. It is the number of null rows. */
    method NullCount(h: nat) returns (n: nat)
      requires Valid() && h in handles
      ensures n == NullRows(Cols()[h].Rows())
    {
      match outer[handles[h]]
      case Named(_, nullCount) => n := nullCount;
      case Plain(t) => n := typed[t].NullCount();
      case View(t, offset, len) => n := typed[t].Slice(offset, len).NullCount();
    }

    /** `Arc::make_mut` on the handle's outer cell: kept when unshared, else replaced by a clone that
        still shares the typed array. */
    method MakeMutOuter(h: nat) returns (o: nat)
      requires Valid() && h in handles
      modifies this
      ensures Valid() && Cols() == old(Cols()) && typed == old(typed)
      ensures handles == old(handles)[h := o] && outer[o] == old(outer[handles[h]])
      ensures forall h' :: h' in handles && h' != h ==> handles[h'] != o
      ensures o == old(handles[h]) <==>
              forall h' :: h' in old(handles) && h' != h ==> old(handles)[h'] != old(handles)[h]
    {
      o := handles[h];
      SoleHolder(h);
      if |Holders(o)| != 1 {
        o := AddOuter(outer[o]);
        Rebind(h, o);
      }
    }

    /** `Arc::make_mut` on an outer cell's typed array: kept when unshared, else copied. */
    method MakeMutTyped(o: nat) returns (t: nat)
      requires Valid() && o in outer && !outer[o].View?
      modifies this
      ensures Valid() && Cols() == old(Cols()) && handles == old(handles)
      ensures outer.Keys == old(outer).Keys && outer[o] == Retarget(old(outer[o]), t)
      ensures typed[t] == old(typed[outer[o].typed])
      ensures forall o' :: o' in outer && o' != o ==> outer[o'] == old(outer[o']) && outer[o'].typed != t
      ensures t == old(outer[o].typed) <==>
              forall o' :: o' in old(outer) && o' != o ==> old(outer)[o'].typed != old(outer)[o].typed
    {
      t := outer[o].typed;
      SoleSharer(o);
      if |Sharers(t)| != 1 {
        t := AddTyped(typed[t]);
        Repoint(o, t);
      }
    }

    /** Stores an edited column in a typed array that only cell `o` holds, and refreshes its null count. */
    method WriteTyped(o: nat, t: nat, col: Col<V>)
      requires Valid() && o in outer && !outer[o].View? && outer[o].typed == t && col.Valid()
      requires forall o' :: o' in outer && o' != o ==> outer[o'].typed != t
      modifies this
      ensures Valid() && handles == old(handles) && outer.Keys == old(outer).Keys && !outer[o].View?
      ensures Shown(outer[o]) == col
      ensures forall h :: h in handles ==>
                Cols()[h] == if handles[h] == o then col else old(Cols())[h]
    {
      typed := typed[t := col];
      if outer[o].Named? {
        outer := outer[o := Named(t, col.NullCount())];
      }
    }

    /** Frees an outer cell that no handle holds any more, and then its typed array if nothing shares it. */
    method Release(o: nat)
      requires Valid() && o in outer
      modifies this
      ensures Valid() && handles == old(handles) && Cols() == old(Cols())
      ensures forall o' :: o' in outer ==> o' in old(outer) && outer[o'] == old(outer[o'])
    {
      if Holders(o) == {} {
        var t := outer[o].typed;
        assert forall h :: h in handles && handles[h] == o ==> h in Holders(o);
        RemoveOuter(o);
        if Sharers(t) == {} {
          assert forall o' :: o' in outer && outer[o'].typed == t ==> o' in Sharers(t);
          RemoveTyped(t);
        }
      }
    }

    method RemoveOuter(o: nat)
      requires Valid() && forall h :: h in handles ==> handles[h] != o
      modifies this
      ensures Valid() && handles == old(handles) && Cols() == old(Cols()) && outer == old(outer) - {o}
    {
      outer := outer - {o};
    }

    method RemoveTyped(t: nat)
      requires Valid() && forall o :: o in outer ==> outer[o].typed != t
      modifies this
      ensures Valid() && handles == old(handles) && Cols() == old(Cols()) && outer == old(outer)
    {
      typed := typed - {t};
    }

    /** The window's rows as an array of its own: the same typed array when the window spans it all,
        otherwise a copy of the slice. The cell belongs to no handle yet. */
    method ToArray(c: Outer) returns (o: nat)
      requires Valid() && CellOk(c) && c.View?
      modifies this
      ensures Valid() && handles == old(handles) && Cols() == old(Cols())
      ensures o in outer && outer[o].Plain? && Shown(outer[o]) == old(Shown(c))
      ensures o !in old(outer) && outer == old(outer)[o := outer[o]]
      ensures forall h :: h in handles ==> handles[h] != o
    {
      var t := c.typed;
      if c.offset == 0 && c.len == |typed[t].values| {
        typed[t].SliceAll();
      } else {
        t := AddTyped(typed[t].Slice(c.offset, c.len));
      }
      o := AddOuter(Plain(t));
    }

    /** Edits the array behind a handle, copying whatever is shared and materialising a window first. Only
        this handle's reading changes. Clearing a null through a window does nothing. */
    method EditArray(h: nat, e: Edit<V>, default: V) returns (r: Result<(), MinarrowError>)
      requires Valid() && h in handles && e.InRange(Cols()[h])
      modifies this
      ensures Valid()
      ensures r == if e.Unsupported() then Err(TypeError) else Ok(())
      ensures Cols() ==
              if e.Unsupported() || (e.ClearNull? && old(IsView(h))) then old(Cols())
              else old(Cols())[h := e.Apply(old(Cols())[h], default)]
      ensures handles.Keys == old(handles).Keys
      ensures r.Ok? && !e.ClearNull? ==> !IsView(h)
    {
      if IsView(h) {
        r := EditView(h, e, default);
      } else {
        r := EditOwned(h, e, default);
      }
    }

    predicate IsView(h: nat)
      requires h in handles && handles[h] in outer
      reads this
    {
      outer[handles[h]].View?
    }

    method EditOwned(h: nat, e: Edit<V>, default: V) returns (r: Result<(), MinarrowError>)
      requires Valid() && h in handles && e.InRange(Cols()[h]) && !IsView(h)
      modifies this
      ensures Valid() && handles.Keys == old(handles).Keys && !IsView(h)
      ensures r == if e.Unsupported() then Err(TypeError) else Ok(())
      ensures Cols() == if e.Unsupported() then old(Cols()) else old(Cols())[h := e.Apply(old(Cols())[h], default)]
    {
      var o, t := MakeUnique(h);
      if e.Unsupported() {
        return Err(TypeError);
      }
      WriteThrough(h, o, t, e.Apply(typed[t], default));
      return Ok(());
    }

    /** Both `make_mut` steps: afterwards nothing else reaches the handle's typed array. */
    method MakeUnique(h: nat) returns (o: nat, t: nat)
      requires Valid() && h in handles && !IsView(h)
      modifies this
      ensures Valid() && Cols() == old(Cols()) && Alone(h, o, t)
    {
      o := MakeMutOuter(h);
      t := MakeMutTyped(o);
    }

    /** Handle `h` is the only one on cell `o`, which is the only one on typed array `t` and shows it whole. */
    ghost predicate Alone(h: nat, o: nat, t: nat)
      requires Valid()
      reads this
    {
      h in handles && handles[h] == o && !outer[o].View? && outer[o].typed == t
      && (forall h' :: h' in handles && h' != h ==> handles[h'] != o)
      && (forall o' :: o' in outer && o' != o ==> outer[o'].typed != t)
    }

    /** Writing where the handle is alone changes what it reads and nothing else. */
    method WriteThrough(h: nat, o: nat, t: nat, col: Col<V>)
      requires Valid() && Alone(h, o, t) && col.Valid()
      modifies this
      ensures Valid() && Cols() == old(Cols())[h := col] && !IsView(h)
    {
      WriteTyped(o, t, col);
    }

    method EditView(h: nat, e: Edit<V>, default: V) returns (r: Result<(), MinarrowError>)
      requires Valid() && h in handles && e.InRange(Cols()[h]) && IsView(h)
      modifies this
      ensures Valid() && handles.Keys == old(handles).Keys
      ensures r == if e.Unsupported() then Err(TypeError) else Ok(())
      ensures Cols() == if e.Unsupported() || e.ClearNull? then old(Cols())
                        else old(Cols())[h := e.Apply(old(Cols())[h], default)]
      ensures r.Ok? && !e.ClearNull? ==> !IsView(h)
    {
      if e.ClearNull? {
        return Ok(());
      }
      var o, t := Materialise(h);
      if e.Unsupported() {
        Release(o);
        return Err(TypeError);
      }
      ReplaceView(h, o, t, e.Apply(typed[t], default));
      return Ok(());
    }

    /** Writes the edited copy and hands it to the handle in place of its window. */
    method ReplaceView(h: nat, o: nat, t: nat, col: Col<V>)
      requires Valid() && h in handles && o in outer && outer[o].Plain? && outer[o].typed == t && col.Valid()
      requires forall h' :: h' in handles ==> handles[h'] != o
      requires forall o' :: o' in outer && o' != o ==> outer[o'].typed != t
      modifies this
      ensures Valid() && Cols() == old(Cols())[h := col] && !IsView(h)
    {
      var was := handles[h];
      WriteTyped(o, t, col);
      assert Cols() == old(Cols());
      Rebind(h, o);
      Release(was);
    }

    /** A private copy of a window's rows, in a cell no handle holds yet. */
    method Materialise(h: nat) returns (o: nat, t: nat)
      requires Valid() && h in handles && IsView(h)
      modifies this
      ensures Valid() && Cols() == old(Cols()) && handles == old(handles)
      ensures o in outer && outer[o].Plain? && outer[o].typed == t && typed[t] == Cols()[h]
      ensures forall h' :: h' in handles ==> handles[h'] != o
      ensures forall o' :: o' in outer && o' != o ==> outer[o'].typed != t
    {
      o := ToArray(outer[handles[h]]);
      t := MakeMutTyped(o);
    }

    // ----- handles coming and going -----

    /** A handle on a new array, unnamed or named. */
    method New(h: nat, col: Col<V>, named: bool)
      requires Valid() && h !in handles && col.Valid()
      modifies this
      ensures Valid() && Cols() == old(Cols())[h := col]
    {
      var t := AddTyped(col);
      var o := AddOuter(if named then Named(t, col.NullCount()) else Plain(t));
      Rebind(h, o);
    }

    /** A second handle on the same outer cell. */
    method Share(src: nat, h: nat)
      requires Valid() && src in handles && h !in handles
      modifies this
      ensures Valid() && Cols() == old(Cols())[h := old(Cols())[src]]
    {
      Rebind(h, handles[src]);
    }

    /** A window over what a handle reads. It shares the typed array. */
    method Window(src: nat, h: nat, offset: nat, len: nat)
      requires Valid() && src in handles && h !in handles && offset + len <= |Cols()[src].values|
      modifies this
      ensures Valid() && Cols() == old(Cols())[h := old(Cols())[src].Slice(offset, len)]
      ensures h in handles && IsView(h)
    {
      var o := AddOuter(WindowOf(outer[handles[src]], offset, len));
      Rebind(h, o);
    }

    /** A window over what a cell shows: over the same typed array, from where a window itself starts. */
    function WindowOf(c: Outer, offset: nat, len: nat): (w: Outer)
      requires CellOk(c) && offset + len <= |Shown(c).values|
      reads this
      ensures w.View? && CellOk(w) && Shown(w) == Shown(c).Slice(offset, len)
    {
      if c.View? then
        typed[c.typed].SliceSlice(c.offset, c.len, offset, len);
        View(c.typed, c.offset + offset, len)
      else View(c.typed, offset, len)
    }

    /** The array behind a handle, taken out and wrapped for a handle of its own. */
    method Extract(src: nat, h: nat)
      requires Valid() && src in handles && h !in handles
      modifies this
      ensures Valid() && Cols() == old(Cols())[h := old(Cols())[src]]
    {
      var c := outer[handles[src]];
      var o;
      if c.View? {
        o := ToArray(c);
      } else {
        o := AddOuter(Plain(c.typed));
      }
      Rebind(h, o);
    }

    method Drop(h: nat)
      requires Valid() && h in handles
      modifies this
      ensures Valid() && Cols() == old(Cols()) - {h}
    {
      var o := handles[h];
      handles := handles - {h};
      Release(o);
    }

    // ----- the Python methods -----

    /** `PyArray::set`: the index may count from the end, `None` writes a null, and a value is written and
        then marked present. */
    method SetItem(h: nat, index: int, item: Item<V>, default: V) returns (r: Result<(), MinarrowError>)
      requires Valid() && h in handles
      modifies this
      ensures Valid() && Cols() == old(Cols())[h := ItemSet(old(Cols())[h], index, item, default)]
      ensures r == if ResolveIndex(index, |old(Cols())[h].values|).None? then Err(IndexError)
                   else if item.Unsupported? then Err(TypeError) else Ok(())
    {
      var i := ResolveIndex(index, |Shown(outer[handles[h]]).values|);
      if i.None? {
        return Err(IndexError);
      }
      match item {
        case Null =>
          r := EditArray(h, SetNull(i.value), default);
        case Unsupported =>
          r := EditArray(h, Set(i.value, None), default);
        case Value(v) =>
          r := SetValue(h, i.value, v, default);
      }
    }

    /** The write, after which the handle holds no window, and the mark that the row is present. */
    method SetValue(h: nat, i: nat, v: V, default: V) returns (r: Result<(), MinarrowError>)
      requires Valid() && h in handles && i < |Cols()[h].values|
      modifies this
      ensures Valid() && r == Ok(())
      ensures Cols() == old(Cols())[h := old(Cols())[h].Set(i, v).SetNullBit(i, false)]
    {
      r := WriteValue(h, i, v, default);
      r := MarkPresent(h, i, default);
    }

    method WriteValue(h: nat, i: nat, v: V, default: V) returns (r: Result<(), MinarrowError>)
      requires Valid() && h in handles && i < |Cols()[h].values|
      modifies this
      ensures Valid() && h in handles && !IsView(h) && r == Ok(())
      ensures Cols() == old(Cols())[h := old(Cols())[h].Set(i, v)]
    {
      r := EditArray(h, Set(i, Some(v)), default);
    }

    method MarkPresent(h: nat, i: nat, default: V) returns (r: Result<(), MinarrowError>)
      requires Valid() && h in handles && !IsView(h) && i < |Cols()[h].values|
      modifies this
      ensures Valid() && r == Ok(())
      ensures Cols() == old(Cols())[h := old(Cols())[h].SetNullBit(i, false)]
    {
      r := EditArray(h, ClearNull(i), default);
    }

    /** Runs any sequence of operations. Each handle then reads what it would read had it owned its column
        alone all along. */
    method Run(ops: seq<Op<V>>, default: V)
      requires Valid()
      modifies this
      ensures Valid() && AllColsValid(old(Cols())) && Cols() == SpecRun(old(Cols()), ops, default)
    {
      for i := 0 to |ops|
        invariant Valid() && Cols() == SpecRun(old(Cols()), ops[..i], default)
      {
        assert ops[..i + 1][..i] == ops[..i];
        Step(ops[i], default);
      }
      assert ops[..|ops|] == ops;
    }

    /** Isolation: after any run, what a handle reads depends only on the edits made through it, whatever was
        shared with it, cut from it, edited or dropped elsewhere in between. */
    method RunIsolated(ops: seq<Op<V>>, default: V)
      requires Valid()
      modifies this
      ensures Valid() && AllColsValid(old(Cols()))
      ensures forall h :: h in old(Cols()) && (forall i :: 0 <= i < |ops| ==> ops[i] != DropHandle(h)) ==>
                h in Cols() && OwnHistory(Some(old(Cols())[h]), ops, h, default) == Some(Cols()[h])
    {
      ghost var before := Cols();
      Run(ops, default);
      forall h | h in before && forall i :: 0 <= i < |ops| ==> ops[i] != DropHandle(h)
        ensures h in Cols() && OwnHistory(Some(before[h]), ops, h, default) == Some(Cols()[h])
      {
        HandlesAreIsolated(before, ops, h, default);
      }
    }

    /** `clear_null_at`: the row is present afterwards exactly when the handle is no window or the row was
        present already. */
    method ClearNullAt(h: nat, i: nat, default: V)
      requires Valid() && h in handles && i < |Cols()[h].values|
      modifies this
      ensures Valid() && h in Cols() && Cols()[h].Valid() && |Cols()[h].values| == |old(Cols())[h].values|
      ensures Cols()[h].Rows()[i].Some? <==> !old(IsView(h)) || old(Cols()[h].Rows()[i]).Some?
      ensures forall h' :: h' in old(Cols()) && h' != h ==> h' in Cols() && Cols()[h'] == old(Cols())[h']
    {
      var _ := EditArray(h, ClearNull(i), default);
    }

    method Step(op: Op<V>, default: V)
      requires Valid()
      modifies this
      ensures Valid() && AllColsValid(old(Cols())) && Cols() == SpecStep(old(Cols()), op, default)
    {
      match op
      case NewArray(_, _, _) => StepNew(op, default);
      case ShareHandle(_, _) => StepShare(op, default);
      case TakeWindow(_, _, _, _) => StepWindow(op, default);
      case TakeArray(_, _) => StepExtract(op, default);
      case PushItem(_, _) => StepPush(op, default);
      case SetAt(_, _, _) => StepSet(op, default);
      case DropHandle(_) => StepDrop(op, default);
    }

    method StepNew(op: Op<V>, default: V)
      requires Valid() && op.NewArray?
      modifies this
      ensures Valid() && AllColsValid(old(Cols())) && Cols() == SpecStep(old(Cols()), op, default)
    {
      if op.h !in handles && op.col.Valid() { New(op.h, op.col, op.named); }
    }

    method StepShare(op: Op<V>, default: V)
      requires Valid() && op.ShareHandle?
      modifies this
      ensures Valid() && AllColsValid(old(Cols())) && Cols() == SpecStep(old(Cols()), op, default)
    {
      if op.src in handles && op.h !in handles { Share(op.src, op.h); }
    }

    method StepWindow(op: Op<V>, default: V)
      requires Valid() && op.TakeWindow?
      modifies this
      ensures Valid() && AllColsValid(old(Cols())) && Cols() == SpecStep(old(Cols()), op, default)
    {
      if op.src in handles && op.h !in handles {
        if op.offset + op.len <= |Shown(outer[handles[op.src]]).values| {
          Window(op.src, op.h, op.offset, op.len);
        }
      }
    }

    method StepExtract(op: Op<V>, default: V)
      requires Valid() && op.TakeArray?
      modifies this
      ensures Valid() && AllColsValid(old(Cols())) && Cols() == SpecStep(old(Cols()), op, default)
    {
      if op.src in handles && op.h !in handles { Extract(op.src, op.h); }
    }

    method StepPush(op: Op<V>, default: V)
      requires Valid() && op.PushItem?
      modifies this
      ensures Valid() && AllColsValid(old(Cols())) && Cols() == SpecStep(old(Cols()), op, default)
    {
      if op.h in handles {
        var _ := EditArray(op.h, op.item.AsPush(), default);
      }
    }

    method StepSet(op: Op<V>, default: V)
      requires Valid() && op.SetAt?
      modifies this
      ensures Valid() && AllColsValid(old(Cols())) && Cols() == SpecStep(old(Cols()), op, default)
    {
      if op.h in handles {
        var _ := SetItem(op.h, op.index, op.item, default);
      }
    }

    method StepDrop(op: Op<V>, default: V)
      requires Valid() && op.DropHandle?
      modifies this
      ensures Valid() && AllColsValid(old(Cols())) && Cols() == SpecStep(old(Cols()), op, default)
    {
      if op.h in handles { Drop(op.h); }
    }
  }

  /** What a write carries: a null, a value the array cannot represent, or one it can. `set` takes Python's
      `None` as the null. `push` does not: its null is `push_null`, and `None` pushed is an unsupported value. */
  datatype Item<V> = Null | Unsupported | Value(v: V) {
    function AsPush(): Edit<V> {
      match this
      case Null => PushNull
      case Unsupported => Push(None)
      case Value(v) => Push(Some(v))
    }
  }

  datatype Op<V> =
    | NewArray(h: nat, col: Col<V>, named: bool)
    | ShareHandle(src: nat, h: nat)
    | TakeWindow(src: nat, h: nat, offset: nat, len: nat)
    | TakeArray(src: nat, h: nat)
    | PushItem(h: nat, item: Item<V>)
    | SetAt(h: nat, index: int, item: Item<V>)
    | DropHandle(h: nat)

  /** A negative index counts from the end. */
  function ResolveIndex(index: int, len: nat): (i: Option<nat>)
    ensures i.Some? <==> 0 <= index + len && index < len
    ensures i.Some? ==> i.value < len && i.value == if 0 <= index then index else index + len
  {
    var resolved := if index < 0 then index + len else index;
    if resolved < 0 || resolved >= len then None else Some(resolved)
  }

  function ItemSet<V>(col: Col<V>, index: int, item: Item<V>, default: V): (r: Col<V>)
    requires col.Valid()
    ensures r.Valid()
    ensures r.Rows() ==
            if item.Unsupported? || ResolveIndex(index, |col.values|).None? then col.Rows()
            else col.Rows()[ResolveIndex(index, |col.values|).value := if item.Null? then None else Some(item.v)]
  {
    match ResolveIndex(index, |col.values|)
    case None => col
    case Some(i) =>
      match item
      case Null => col.SetNullBit(i, true)
      case Unsupported => col
      case Value(v) => col.Set(i, v).SetNullBit(i, false)
  }

  function ItemPushed<V>(col: Col<V>, item: Item<V>, default: V): (r: Col<V>)
    requires col.Valid()
    ensures r.Valid()
    ensures r.Rows() == if item.Unsupported? then col.Rows()
                        else col.Rows() + [if item.Null? then None else Some(item.v)]
  {
    match item
    case Null => col.PushNull(default)
    case Unsupported => col
    case Value(v) => col.Push(v)
  }

  ghost predicate AllColsValid<V>(m: map<nat, Col<V>>) {
    forall h :: h in m ==> m[h].Valid()
  }

  /** The specification: every handle owns its column outright, and nothing is shared. */
  ghost function SpecStep<V>(m: map<nat, Col<V>>, op: Op<V>, default: V): (r: map<nat, Col<V>>)
    requires AllColsValid(m)
    ensures AllColsValid(r)
  {
    match op
    case NewArray(h, col, named) => if h !in m && col.Valid() then m[h := col] else m
    case ShareHandle(src, h) => if src in m && h !in m then m[h := m[src]] else m
    case TakeWindow(src, h, offset, len) =>
      if src in m && h !in m && offset + len <= |m[src].values| then m[h := m[src].Slice(offset, len)] else m
    case TakeArray(src, h) => if src in m && h !in m then m[h := m[src]] else m
    case PushItem(h, item) => if h in m then m[h := ItemPushed(m[h], item, default)] else m
    case SetAt(h, index, item) => if h in m then m[h := ItemSet(m[h], index, item, default)] else m
    case DropHandle(h) => m - {h}
  }

  ghost function SpecRun<V>(m: map<nat, Col<V>>, ops: seq<Op<V>>, default: V): (r: map<nat, Col<V>>)
    requires AllColsValid(m)
    ensures AllColsValid(r)
  {
    if ops == [] then m else SpecStep(SpecRun(m, ops[..|ops| - 1], default), ops[|ops| - 1], default)
  }

  /** The handle an operation writes: the edited, dropped or new one. */
  function Target<V>(op: Op<V>): nat {
    match op
    case NewArray(h, _, _) => h
    case ShareHandle(_, h) => h
    case TakeWindow(_, h, _, _) => h
    case TakeArray(_, h) => h
    case PushItem(h, _) => h
    case SetAt(h, _, _) => h
    case DropHandle(h) => h
  }

  /** One column taken through the pushes and sets that name its handle; `None` once the handle is dropped.
      Every other operation is passed over. */
  ghost function OwnHistory<V>(col: Option<Col<V>>, ops: seq<Op<V>>, h: nat, default: V): (r: Option<Col<V>>)
    requires col.Some? ==> col.value.Valid()
    ensures r.Some? ==> r.value.Valid()
  {
    if ops == [] then col
    else
      var before := OwnHistory(col, ops[..|ops| - 1], h, default);
      var op := ops[|ops| - 1];
      if Target(op) != h || before.None? then before
      else
        match op
        case PushItem(_, item) => Some(ItemPushed(before.value, item, default))
        case SetAt(_, index, item) => Some(ItemSet(before.value, index, item, default))
        case DropHandle(_) => None
        case _ => before
  }

  /** Where every handle owns its column, a handle that is not dropped reads what its own history makes of it. */
  lemma {:induction false} HandlesAreIsolated<V>(m: map<nat, Col<V>>, ops: seq<Op<V>>, h: nat, default: V)
    requires AllColsValid(m) && h in m
    requires forall i :: 0 <= i < |ops| ==> ops[i] != DropHandle(h)
    ensures h in SpecRun(m, ops, default)
    ensures OwnHistory(Some(m[h]), ops, h, default) == Some(SpecRun(m, ops, default)[h])
  {
    if ops != [] {
      HandlesAreIsolated(m, ops[..|ops| - 1], h, default);
      assert ops[|ops| - 1] != DropHandle(h);
    }
  }

  /** Clearing a null through a window leaves it: a column of one null, and a window over it. */
  method WindowKeepsNull(default: int) returns (store: Store<int>)
    ensures fresh(store) && store.Valid() && 1 in store.Cols()
    ensures store.Cols()[1].Valid() && store.Cols()[1].Rows() == [None]
  {
    store := OneNullWindow();
    store.ClearNullAt(1, 0, default);
  }

  method OneNullWindow() returns (store: Store<int>)
    ensures fresh(store) && store.Valid() && 1 in store.handles && store.IsView(1)
    ensures store.Cols()[1] == Col([7], Some([false]))
  {
    var column := Col([7], Some([false]));
    store := new Store();
    store.New(0, column, false);
    store.Window(0, 1, 0, 1);
    column.SliceAll();
  }

  function Retarget(c: Outer, t: nat): (r: Outer)
    ensures r.typed == t
  {
    match c
    case Plain(_) => Plain(t)
    case Named(_, n) => Named(t, n)
    case View(_, offset, len) => View(t, offset, len)
  }

  /** A one-element set has no other element. */
  lemma OnlyOne(s: set<nat>, x: nat)
    requires x in s
    ensures |s| == 1 <==> forall y :: y in s ==> y == x
  {
    if |s| == 1 {
      assert |s - {x}| == 0;
      assert s == (s - {x}) + {x};
    }
    if forall y :: y in s ==> y == x {
      assert s == {x};
    }
  }
}
