// Keyset pages: each asks for one row more than it shows and resumes strictly after its end cursor.
module Paging {
  import opened Filters
  import opened Order
  import opened Sorting

  datatype Page<T> = Page(items: seq<T>, hasNextPage: bool)

  lemma FilterFirst<T(!new)>(x: T, rows: seq<T>, keep: T -> bool)
    ensures Filter([x] + rows, keep) == if keep(x) then [x] + Filter(rows, keep) else Filter(rows, keep)
  {
    FilterAppend([x], rows, keep);
    assert [x][..0] == [] && [] + Filter(rows, keep) == Filter(rows, keep);
  }

  lemma {:induction false} FilterInsert<T(!new)>(x: T, sorted: seq<T>, keep: T -> bool, precedes: Precedence<T>)
    requires IsStrict(precedes) && IsSortedBy(sorted, precedes)
    ensures Filter(Insert(x, sorted, precedes), keep)
      == if keep(x) then Insert(x, Filter(sorted, keep), precedes) else Filter(sorted, keep)
  {
    var kept := Filter(sorted, keep);
    hide Filter;
    if sorted == [] || precedes(x, sorted[0]) {
      FilterFirst(x, sorted, keep);
      FilterHas(sorted, keep);
      if kept != [] {
        assert kept[0] in kept;
        var i :| 0 <= i < |sorted| && sorted[i] == kept[0];
        assert i == 0 || precedes(sorted[0], sorted[i]);
      }
    } else {
      var rest := sorted[1..];
      assert sorted == [sorted[0]] + rest;
      FilterInsert(x, rest, keep, precedes);
      FilterFirst(sorted[0], rest, keep);
      FilterFirst(sorted[0], Insert(x, rest, precedes), keep);
      assert Insert(x, sorted, precedes) == [sorted[0]] + Insert(x, rest, precedes);
      if keep(sorted[0]) {
        assert kept == [sorted[0]] + Filter(rest, keep) && kept[1..] == Filter(rest, keep);
        assert Insert(x, kept, precedes) == [sorted[0]] + Insert(x, kept[1..], precedes);
      }
    }
  }

  lemma TotalRest<T(!new)>(rows: seq<T>, precedes: Precedence<T>)
    requires IsTotalOn(rows, precedes) && rows != []
    ensures IsTotalOn(rows[1..], precedes) && rows == [rows[0]] + rows[1..]
  {
    assert forall i :: 0 <= i < |rows| - 1 ==> rows[1..][i] == rows[i + 1];
  }

  /** Selecting and ordering commute. */
  lemma {:induction false} FilterOrderBy<T(!new)>(rows: seq<T>, keep: T -> bool, precedes: Precedence<T>)
    requires IsStrict(precedes) && IsTotalOn(rows, precedes)
    ensures OrderBy(Filter(rows, keep), precedes) == Filter(OrderBy(rows, precedes), keep)
  {
    if rows != [] {
      TotalRest(rows, precedes);
      var rest := rows[1..];
      FilterOrderBy(rest, keep, precedes);
      OrderBySorts(rest, precedes);
      FilterInsert(rows[0], OrderBy(rest, precedes), keep, precedes);
      hide Filter, Insert, IsStrict, IsTotalOn, IsSortedBy;
      FilterFirst(rows[0], rest, keep);
      OrderFirst(rows[0], rest, precedes);
      OrderFirst(rows[0], Filter(rest, keep), precedes);
    }
  }

  lemma OrderFirst<T(!new)>(x: T, rest: seq<T>, precedes: Precedence<T>)
    ensures OrderBy([x] + rest, precedes) == Insert(x, OrderBy(rest, precedes), precedes)
  {
    assert ([x] + rest)[1..] == rest;
  }

  lemma Asymmetric<T(!new)>(a: T, b: T, precedes: Precedence<T>)
    requires IsStrict(precedes) && precedes(a, b)
    ensures !precedes(b, a)
  {
    assert !precedes(a, a);
  }

  lemma SuffixFollows<T(!new)>(sorted: seq<T>, k: nat, keep: T -> bool, precedes: Precedence<T>)
    requires IsStrict(precedes) && IsSortedBy(sorted, precedes) && 0 < k <= |sorted|
    requires forall r :: keep(r) <==> precedes(sorted[k - 1], r)
    ensures Filter(sorted, keep) == sorted[k..]
  {
    assert !precedes(sorted[k - 1], sorted[k - 1]);
    hide IsStrict, Filter;
    forall i | 0 <= i < k ensures !keep(sorted[..k][i]) {
      if i < k - 1 { Asymmetric(sorted[i], sorted[k - 1], precedes); }
    }
    forall i | 0 <= i < |sorted| - k ensures keep(sorted[k..][i]) {
      assert precedes(sorted[k - 1], sorted[k + i]);
    }
    assert sorted == sorted[..k] + sorted[k..];
    FilterAppend(sorted[..k], sorted[k..], keep);
    FilterNone(sorted[..k], keep);
    FilterAll(sorted[k..], keep);
  }

  // ---- One page ----

  const NO_LIMIT: nat := 0x4000_0000_0000_0000

  function QueryLimit(limit: int): nat { if limit <= 0 then NO_LIMIT else limit + 1 }

  function AtMost<T>(rows: seq<T>, n: nat): seq<T> { if |rows| <= n then rows else rows[..n] }

  /** A list query: what it selects, the predicate a cursor adds, and the order. */
  datatype Query<!T(!new)> =
      Query(rows: seq<T>, matches: T -> bool, follow: Option<T> -> (T -> bool), precedes: Precedence<T>)

  /** The whole list. */
  function Listed<T(!new)>(q: Query<T>): seq<T> { OrderBy(Filter(q.rows, q.matches), q.precedes) }

  /** SELECT ... WHERE matches AND cursor predicate ORDER BY ... LIMIT. */
  function Selected<T(!new)>(q: Query<T>, cursor: Option<T>, limit: int): seq<T> {
    AtMost(OrderBy(Filter(Filter(q.rows, q.matches), q.follow(cursor)), q.precedes), QueryLimit(limit))
  }

  function Cut<T>(found: seq<T>, limit: int): Page<T> {
    if limit > 0 && |found| > limit then Page(found[..limit], true) else Page(found, false)
  }

  function PageAfter<T(!new)>(q: Query<T>, cursor: Option<T>, limit: int): Page<T> {
    Cut(Selected(q, cursor, limit), limit)
  }

  /** The order is strict and without ties, and the cursor predicate means "strictly after the cursor" in it. */
  ghost predicate IsKeyset<T(!new)>(q: Query<T>) {
    && IsStrict(q.precedes) && IsTotalOn(q.rows, q.precedes)
    && (forall r :: r in q.rows ==> q.follow(None)(r))
    && (forall c: T, r: T :: q.follow(Some(c))(r) <==> q.precedes(c, r))
  }

  lemma {:induction false} FilterTotal<T(!new)>(rows: seq<T>, keep: T -> bool, precedes: Precedence<T>)
    requires IsTotalOn(rows, precedes)
    ensures IsTotalOn(Filter(rows, keep), precedes)
  {
    if rows != [] {
      var n := |rows| - 1;
      FilterTotal(rows[..n], keep, precedes);
      FilterHas(rows[..n], keep);
      var kept := Filter(rows[..n], keep);
      forall i | 0 <= i < |kept| ensures precedes(kept[i], rows[n]) || precedes(rows[n], kept[i]) {
        assert kept[i] in kept;
        var j :| 0 <= j < n && rows[j] == kept[i];
      }
    }
  }

  function CursorAt<T>(full: seq<T>, k: nat): Option<T>
    requires k <= |full|
  {
    if k == 0 then None else Some(full[k - 1])
  }

  function PageAt<T>(full: seq<T>, k: nat, limit: nat): Page<T>
    requires k <= |full|
  {
    if k + limit < |full| then Page(full[k..k + limit], true) else Page(full[k..], false)
  }

  lemma ListIsSorted<T(!new)>(q: Query<T>)
    requires IsKeyset(q)
    ensures IsSortedBy(Listed(q), q.precedes) && multiset(Listed(q)) == multiset(Filter(q.rows, q.matches))
    ensures forall r :: r in Listed(q) ==> r in q.rows
  {
    FilterTotal(q.rows, q.matches, q.precedes);
    OrderBySorts(Filter(q.rows, q.matches), q.precedes);
    FilterHas(q.rows, q.matches);
    hide Filter, OrderBy, IsTotalOn, IsStrict;
    forall r | r in Listed(q) ensures r in q.rows {
      assert r in multiset(Listed(q));
    }
  }

  /** Resuming after the k-th row selects the rest of the list. */
  lemma ResumesAt<T(!new)>(q: Query<T>, k: nat)
    requires IsKeyset(q) && k <= |Listed(q)|
    ensures var cursor := CursorAt(Listed(q), k);
      OrderBy(Filter(Filter(q.rows, q.matches), q.follow(cursor)), q.precedes) == Listed(q)[k..]
  {
    var full := Listed(q);
    var after := q.follow(CursorAt(full, k));
    ListIsSorted(q);
    FilterTotal(q.rows, q.matches, q.precedes);
    FilterOrderBy(Filter(q.rows, q.matches), after, q.precedes);
    hide Filter, OrderBy, IsTotalOn, IsSortedBy;
    if k > 0 {
      SuffixFollows(full, k, after, q.precedes);
    } else {
      assert forall i :: 0 <= i < |full| ==> full[i] in full;
      FilterAll(full, after);
    }
  }

  /** A page holds the rows after its cursor, and knows whether more remain. */
  lemma PageContinues<T(!new)>(q: Query<T>, limit: nat, k: nat)
    requires IsKeyset(q) && limit > 0 && k <= |Listed(q)|
    ensures PageAfter(q, CursorAt(Listed(q), k), limit) == PageAt(Listed(q), k, limit)
  {
    ResumesAt(q, k);
    hide IsKeyset, Listed, Filter, OrderBy;
    var full := Listed(q);
    if k + limit < |full| { assert AtMost(full[k..], limit + 1)[..limit] == full[k..k + limit]; }
  }

  // ---- All pages ----

  function EndCursor<T>(p: Page<T>): Option<T> {
    if p.items == [] then None else Some(p.items[|p.items| - 1])
  }

  function CursorFor<T>(pages: seq<Page<T>>): Option<T> {
    if pages == [] then None else EndCursor(pages[|pages| - 1])
  }

  predicate GoesOn<T>(pages: seq<Page<T>>) { pages == [] || pages[|pages| - 1].hasNextPage }

  /** Each page was fetched from the end cursor of the one before, which had announced it. */
  ghost predicate AreFetched<T(!new)>(pages: seq<Page<T>>, q: Query<T>, limit: int) {
    pages == [] || (
      var before := pages[..|pages| - 1];
      AreFetched(before, q, limit) && GoesOn(before) && pages[|pages| - 1] == PageAfter(q, CursorFor(before), limit))
  }

  /** Pages fetched one after the other until one says there is no more. */
  ghost predicate IsWalk<T(!new)>(pages: seq<Page<T>>, q: Query<T>, limit: int) {
    AreFetched(pages, q, limit) && !GoesOn(pages)
  }

  function Shown<T>(pages: seq<Page<T>>): seq<T> {
    if pages == [] then [] else Shown(pages[..|pages| - 1]) + pages[|pages| - 1].items
  }

  /** From one page to the next. */
  lemma NextPage<T(!new)>(q: Query<T>, limit: nat, p: Page<T>, k: nat)
    requires IsKeyset(q) && limit > 0 && k <= |Listed(q)| && p == PageAt(Listed(q), k, limit) && p.hasNextPage
    ensures k + limit <= |Listed(q)| && p.items == Listed(q)[k..k + limit]
    ensures EndCursor(p) == CursorAt(Listed(q), k + limit)
    ensures PageAfter(q, EndCursor(p), limit) == PageAt(Listed(q), k + limit, limit)
  {
    hide PageAfter, Listed, IsKeyset;
    PageContinues(q, limit, k + limit);
  }

  /** Pages that announce more show a prefix of the list, and the next cursor points right behind it. */
  lemma {:induction false} WalkAdvances<T(!new)>(pages: seq<Page<T>>, q: Query<T>, limit: nat) returns (k: nat)
    requires IsKeyset(q) && limit > 0 && AreFetched(pages, q, limit) && GoesOn(pages)
    ensures k <= |Listed(q)| && Shown(pages) == Listed(q)[..k] && CursorFor(pages) == CursorAt(Listed(q), k)
  {
    hide PageAfter, Listed, IsKeyset, PageAt, EndCursor;
    var full := Listed(q);
    if pages == [] {
      k := 0;
      assert full[..0] == [];
    } else {
      var n := |pages| - 1;
      var j := WalkAdvances(pages[..n], q, limit);
      hide AreFetched;
      PageContinues(q, limit, j);
      NextPage(q, limit, pages[n], j);
      k := j + limit;
      assert full[..j] + full[j..k] == full[..k];
    }
  }

  /** Every matching row is shown exactly once and in order by the pages up to the first that announces no more. */
  lemma WalkShowsAll<T(!new)>(pages: seq<Page<T>>, q: Query<T>, limit: nat)
    requires IsKeyset(q) && limit > 0 && IsWalk(pages, q, limit)
    ensures Shown(pages) == Listed(q)
    ensures IsSortedBy(Shown(pages), q.precedes) && multiset(Shown(pages)) == multiset(Filter(q.rows, q.matches))
  {
    ListIsSorted(q);
    hide Listed, IsKeyset, PageAfter, IsSortedBy, Filter;
    var n, full := |pages| - 1, Listed(q);
    var k := WalkAdvances(pages[..n], q, limit);
    hide AreFetched, CursorAt;
    PageContinues(q, limit, k);
    assert full[..k] + full[k..] == full;
  }

  /** And such a walk always comes to an end. */
  lemma {:induction false} WalkEnds<T(!new)>(q: Query<T>, limit: nat, fetched: seq<Page<T>>, k: nat)
    returns (pages: seq<Page<T>>)
    requires IsKeyset(q) && limit > 0 && k <= |Listed(q)|
    requires AreFetched(fetched, q, limit) && GoesOn(fetched) && CursorFor(fetched) == CursorAt(Listed(q), k)
    ensures IsWalk(pages, q, limit)
    decreases |Listed(q)| - k
  {
    hide Listed, IsKeyset, PageAfter, EndCursor;
    PageContinues(q, limit, k);
    var next := PageAt(Listed(q), k, limit);
    pages := fetched + [next];
    assert pages[..|pages| - 1] == fetched;
    if next.hasNextPage {
      NextPage(q, limit, next, k);
      pages := WalkEnds(q, limit, pages, k + limit);
    }
  }
}
