/** The dictionary encoding of a list of rows: codes in order of first appearance. */
module Dictionaries {
  import opened Options

  datatype Encoding<T> = Encoding(codes: seq<nat>, uniq: seq<T>)

  function IndexOf<T(==)>(s: seq<T>, x: T): (i: Option<nat>)
    ensures i.Some? ==> i.value < |s| && s[i.value] == x && x !in s[..i.value]
    ensures i.None? <==> x !in s
  {
    if s == [] then None
    else if s[0] == x then Some(0)
    else match IndexOf(s[1..], x)
      case None => None
      case Some(i) => Some(i + 1)
  }

  /** One more row: its code if the dictionary has it, the next code otherwise. */
  function Extend<T(==)>(e: Encoding<T>, row: T): Encoding<T> {
    match IndexOf(e.uniq, row)
    case Some(i) => Encoding(e.codes + [i], e.uniq)
    case None => Encoding(e.codes + [|e.uniq|], e.uniq + [row])
  }

  function Encode<T(==)>(rows: seq<T>): Encoding<T> {
    if rows == [] then Encoding([], []) else Extend(Encode(rows[..|rows| - 1]), rows[|rows| - 1])
  }

  predicate Distinct<T(==)>(s: seq<T>) {
    forall i, j :: 0 <= i < j < |s| ==> s[i] != s[j]
  }

  /** The set of rows. */
  ghost function RowSet<T>(rows: seq<T>): set<T> {
    set r | r in rows
  }

  /** Where a row of the list first appears. */
  function First<T(==)>(rows: seq<T>, x: T): (i: nat)
    requires x in rows
    ensures i < |rows| && rows[i] == x && x !in rows[..i]
  {
    IndexOf(rows, x).value
  }

  /** Decoding the codes gives the rows back, and no code is out of the dictionary. */
  lemma {:induction false} EncodeDecodes<T>(rows: seq<T>)
    ensures var e := Encode(rows);
            |e.codes| == |rows|
            && forall i :: 0 <= i < |rows| ==> e.codes[i] < |e.uniq| && e.uniq[e.codes[i]] == rows[i]
  {
    if rows != [] { EncodeDecodes(rows[..|rows| - 1]); }
  }

  /** The dictionary repeats nothing and holds exactly the rows' values. */
  lemma {:induction false} EncodeDistinct<T>(rows: seq<T>)
    ensures Distinct(Encode(rows).uniq)
    ensures RowSet(Encode(rows).uniq) == RowSet(rows)
  {
    if rows != [] {
      var init, last := rows[..|rows| - 1], rows[|rows| - 1];
      EncodeDistinct(init);
      assert rows == init + [last];
      var u := Encode(init).uniq;
      assert last in u <==> last in RowSet(u);
      assert RowSet(rows) == RowSet(init) + {last};
      assert RowSet(u + [last]) == RowSet(u) + {last};
    }
  }

  /** Codes follow first appearance: of two values the one seen first has the smaller code. */
  lemma {:induction false} EncodeOrder<T>(rows: seq<T>, i: nat, j: nat)
    requires i < j < |Encode(rows).uniq|
    ensures Encode(rows).uniq[i] in rows && Encode(rows).uniq[j] in rows
    ensures First(rows, Encode(rows).uniq[i]) < First(rows, Encode(rows).uniq[j])
  {
    var init, last := rows[..|rows| - 1], rows[|rows| - 1];
    var u := Encode(init).uniq;
    EncodeDistinct(init);
    EncodeDistinct(rows);
    assert rows == init + [last];
    assert forall k :: 0 <= k < |u| ==> u[k] in RowSet(u);
    if j < |u| {
      EncodeOrder(init, i, j);
      FirstStable(init, last, u[i]);
      FirstStable(init, last, u[j]);
    } else {
      assert u[i] in init;
      FirstStable(init, last, u[i]);
      assert last !in RowSet(u);
    }
  }

  lemma FirstAtMost<T>(rows: seq<T>, x: T, j: nat)
    requires j < |rows| && rows[j] == x
    ensures First(rows, x) <= j
  {
    forall k | 0 <= k < First(rows, x) ensures rows[k] != x {
      assert rows[k] in rows[..First(rows, x)];
    }
  }

  /** The code is used, and before its first use come only smaller codes. */
  predicate FirstUsed(codes: seq<nat>, c: nat) {
    exists i :: 0 <= i < |codes| && codes[i] == c && forall j :: 0 <= j < i ==> codes[j] < c
  }

  /** Codes are given out one after another, each at its value's first row. */
  lemma EncodeUses<T>(rows: seq<T>, c: nat)
    requires c < |Encode(rows).uniq|
    ensures FirstUsed(Encode(rows).codes, c)
  {
    var e := Encode(rows);
    EncodeDecodes(rows);
    EncodeDistinct(rows);
    assert e.uniq[c] in RowSet(e.uniq);
    var i := First(rows, e.uniq[c]);
    forall j | 0 <= j < i ensures e.codes[j] < c {
      SmallerBefore(rows, c, j);
    }
    assert e.codes[i] == c;
  }

  lemma SmallerBefore<T>(rows: seq<T>, c: nat, j: nat)
    requires c < |Encode(rows).uniq| && Encode(rows).uniq[c] in rows && j < First(rows, Encode(rows).uniq[c])
    ensures |Encode(rows).codes| == |rows| && Encode(rows).codes[j] < c
  {
    var e := Encode(rows);
    EncodeDecodes(rows);
    var d := e.codes[j];
    FirstAtMost(rows, e.uniq[d], j);
    if c < d { EncodeOrder(rows, c, d); }
  }

  lemma {:induction false} FirstUnique<T>(s: seq<T>, x: T, i: nat)
    requires i < |s| && s[i] == x && x !in s[..i]
    ensures IndexOf(s, x) == Some(i)
  {
    if i > 0 {
      assert s[0] in s[..i];
      assert s[1..][..i - 1] == s[..i][1..];
      FirstUnique(s[1..], x, i - 1);
    }
  }

  lemma FirstStable<T>(init: seq<T>, last: T, x: T)
    requires x in init
    ensures First(init + [last], x) == First(init, x)
  {
    var i := First(init, x);
    assert (init + [last])[..i] == init[..i];
    FirstUnique(init + [last], x, i);
  }

  /** Duplicate-free lists are as long as their set of values. */
  lemma {:induction false} DistinctSize<T>(s: seq<T>)
    requires Distinct(s)
    ensures |RowSet(s)| == |s|
  {
    if s != [] {
      var init, last := s[..|s| - 1], s[|s| - 1];
      DistinctSize(init);
      assert RowSet(s) == RowSet(init) + {last};
      assert last !in RowSet(init);
    }
  }

  /** A dictionary is as large as the rows have different values. */
  lemma EncodeSize<T>(rows: seq<T>)
    ensures |Encode(rows).uniq| == |RowSet(rows)|
  {
    EncodeDistinct(rows);
    DistinctSize(Encode(rows).uniq);
  }
}
