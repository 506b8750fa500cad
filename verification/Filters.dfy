// Selecting rows of a keyless table, what a DELETE leaves behind, and batches laid end to end.
module Filters {

  function Filter<T(!new)>(rows: seq<T>, keep: T -> bool): (r: seq<T>)
    ensures |r| <= |rows|
  {
    if rows == [] then []
    else
      var n := |rows| - 1;
      if keep(rows[n]) then Filter(rows[..n], keep) + [rows[n]] else Filter(rows[..n], keep)
  }

  lemma {:induction false} FilterHas<T(!new)>(rows: seq<T>, keep: T -> bool)
    ensures forall x :: x in Filter(rows, keep) <==> x in rows && keep(x)
  {
    if rows != [] {
      var n := |rows| - 1;
      FilterHas(rows[..n], keep);
      assert rows == rows[..n] + [rows[n]];
    }
  }

  /** A selection holds what it keeps as often as before, and nothing else. */
  lemma {:induction false} FilterCounts<T(!new)>(rows: seq<T>, keep: T -> bool, x: T)
    ensures multiset(Filter(rows, keep))[x] == if keep(x) then multiset(rows)[x] else 0
  {
    if rows != [] {
      var n := |rows| - 1;
      FilterCounts(rows[..n], keep, x);
      assert rows == rows[..n] + [rows[n]];
    }
  }

  lemma {:induction false} FilterAppend<T(!new)>(a: seq<T>, b: seq<T>, keep: T -> bool)
    ensures Filter(a + b, keep) == Filter(a, keep) + Filter(b, keep)
  {
    if b == [] {
      assert a + b == a;
    } else {
      var n := |b| - 1;
      assert (a + b)[..|a + b| - 1] == a + b[..n] && (a + b)[|a + b| - 1] == b[n];
      FilterAppend(a, b[..n], keep);
    }
  }

  lemma {:induction false} FilterCommutes<T(!new)>(rows: seq<T>, p: T -> bool, q: T -> bool)
    ensures Filter(Filter(rows, p), q) == Filter(Filter(rows, q), p)
  {
    if rows != [] {
      var n := |rows| - 1;
      FilterCommutes(rows[..n], p, q);
      var last := rows[n];
      FilterAppend(Filter(rows[..n], p), if p(last) then [last] else [], q);
      FilterAppend(Filter(rows[..n], q), if q(last) then [last] else [], p);
      assert [last][..0] == [];
    }
  }

  lemma {:induction false} FilterAll<T(!new)>(rows: seq<T>, keep: T -> bool)
    requires forall i :: 0 <= i < |rows| ==> keep(rows[i])
    ensures Filter(rows, keep) == rows
  {
    if rows != [] {
      var n := |rows| - 1;
      FilterAll(rows[..n], keep);
      assert rows == rows[..n] + [rows[n]];
    }
  }

  lemma {:induction false} FilterNone<T(!new)>(rows: seq<T>, keep: T -> bool)
    requires forall i :: 0 <= i < |rows| ==> !keep(rows[i])
    ensures Filter(rows, keep) == []
  {
    if rows != [] {
      FilterNone(rows[..|rows| - 1], keep);
    }
  }

  /** Batches laid end to end. */
  function Flat<T>(batches: seq<seq<T>>): seq<T> {
    if batches == [] then [] else Flat(batches[..|batches| - 1]) + batches[|batches| - 1]
  }

  /** How many elements the batches hold together. */
  function Count<T>(batches: seq<seq<T>>): nat {
    if batches == [] then 0 else Count(batches[..|batches| - 1]) + |batches[|batches| - 1]|
  }

  lemma {:induction false} FlatCount<T>(batches: seq<seq<T>>)
    ensures |Flat(batches)| == Count(batches)
  {
    if batches != [] { FlatCount(batches[..|batches| - 1]); }
  }

  /** Element `k` of batch `j` comes after everything in the batches before it. */
  lemma {:induction false} FlatAt<T>(batches: seq<seq<T>>, j: nat, k: nat)
    requires j < |batches| && k < |batches[j]|
    ensures Count(batches[..j]) + k < |Flat(batches)| && Flat(batches)[Count(batches[..j]) + k] == batches[j][k]
  {
    var n := |batches| - 1;
    FlatCount(batches[..n]);
    if j < n {
      FlatAt(batches[..n], j, k);
      assert batches[..n][..j] == batches[..j];
    }
  }

  /** Two deletes in a row are one delete of both. */
  lemma {:induction false} FilterCompose<T(!new)>(rows: seq<T>, p: T -> bool, q: T -> bool, both: T -> bool)
    requires forall x :: both(x) <==> p(x) && q(x)
    ensures Filter(Filter(rows, p), q) == Filter(rows, both)
  {
    if rows != [] {
      var n := |rows| - 1;
      FilterCompose(rows[..n], p, q, both);
      if p(rows[n]) {
        FilterAppend(Filter(rows[..n], p), [rows[n]], q);
        assert [rows[n]][..0] == [];
      }
    }
  }
}
