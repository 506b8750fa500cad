// ORDER BY: sorting by insertion, which for rows that never tie is the one sorted arrangement.
module Sorting {
  type Precedence<!T> = (T, T) -> bool

  function Insert<T>(x: T, sorted: seq<T>, precedes: Precedence<T>): seq<T> {
    if sorted == [] || precedes(x, sorted[0]) then [x] + sorted else [sorted[0]] + Insert(x, sorted[1..], precedes)
  }

  function OrderBy<T>(rows: seq<T>, precedes: Precedence<T>): seq<T> {
    if rows == [] then [] else Insert(rows[0], OrderBy(rows[1..], precedes), precedes)
  }

  ghost predicate IsStrict<T(!new)>(precedes: Precedence<T>) {
    (forall a :: !precedes(a, a)) && (forall a, b, c :: precedes(a, b) && precedes(b, c) ==> precedes(a, c))
  }

  /** No two rows tie. */
  ghost predicate IsTotalOn<T(!new)>(rows: seq<T>, precedes: Precedence<T>) {
    forall i, j :: 0 <= i < j < |rows| ==> precedes(rows[i], rows[j]) || precedes(rows[j], rows[i])
  }

  ghost predicate IsSortedBy<T(!new)>(rows: seq<T>, precedes: Precedence<T>) {
    forall i, j :: 0 <= i < j < |rows| ==> precedes(rows[i], rows[j])
  }

  lemma {:induction false} InsertHas<T(!new)>(x: T, sorted: seq<T>, precedes: Precedence<T>)
    ensures multiset(Insert(x, sorted, precedes)) == multiset{x} + multiset(sorted)
  {
    if sorted != [] && !precedes(x, sorted[0]) {
      InsertHas(x, sorted[1..], precedes);
      assert sorted == [sorted[0]] + sorted[1..];
    }
  }

  lemma {:induction false} OrderByHas<T(!new)>(rows: seq<T>, precedes: Precedence<T>)
    ensures multiset(OrderBy(rows, precedes)) == multiset(rows)
  {
    if rows != [] {
      OrderByHas(rows[1..], precedes);
      InsertHas(rows[0], OrderBy(rows[1..], precedes), precedes);
      assert rows == [rows[0]] + rows[1..];
    }
  }

  lemma {:induction false} InsertSorts<T(!new)>(x: T, sorted: seq<T>, precedes: Precedence<T>)
    requires IsStrict(precedes) && IsSortedBy(sorted, precedes)
    requires forall i :: 0 <= i < |sorted| ==> precedes(x, sorted[i]) || precedes(sorted[i], x)
    ensures IsSortedBy(Insert(x, sorted, precedes), precedes)
  {
    if sorted != [] {
      if precedes(x, sorted[0]) {
        assert forall j :: 0 < j < |sorted| ==> precedes(sorted[0], sorted[j]);
      } else {
        var rest := Insert(x, sorted[1..], precedes);
        InsertSorts(x, sorted[1..], precedes);
        InsertHas(x, sorted[1..], precedes);
        forall j | 0 <= j < |rest| ensures precedes(sorted[0], rest[j]) {
          assert rest[j] in multiset(rest);
        }
      }
    }
  }

  lemma {:induction false} OrderBySorts<T(!new)>(rows: seq<T>, precedes: Precedence<T>)
    requires IsStrict(precedes) && IsTotalOn(rows, precedes)
    ensures IsSortedBy(OrderBy(rows, precedes), precedes) && multiset(OrderBy(rows, precedes)) == multiset(rows)
  {
    if rows != [] {
      var rest := OrderBy(rows[1..], precedes);
      OrderBySorts(rows[1..], precedes);
      forall i | 0 <= i < |rest| ensures precedes(rows[0], rest[i]) || precedes(rest[i], rows[0]) {
        assert rest[i] in multiset(rest);
        var j :| 0 <= j < |rows[1..]| && rows[1..][j] == rest[i];
        assert rows[j + 1] == rest[i];
      }
      InsertSorts(rows[0], rest, precedes);
      InsertHas(rows[0], rest, precedes);
      assert rows == [rows[0]] + rows[1..];
    }
  }
}
