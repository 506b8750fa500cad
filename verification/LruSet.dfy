// The bounded recency set that lets the writer skip upserts it has made recently.
module LruSet {

  function Remove<K(==)>(s: seq<K>, k: K): (r: seq<K>)
    ensures |r| <= |s|
  {
    if s == [] then [] else if s[0] == k then Remove(s[1..], k) else [s[0]] + Remove(s[1..], k)
  }

  ghost predicate NoRepeats<K>(s: seq<K>) {
    forall i, j :: 0 <= i < j < |s| ==> s[i] != s[j]
  }

  /** The distinct keys of a touch history, most recent first. */
  function Recent<K(==)>(touches: seq<K>): (r: seq<K>) {
    if touches == [] then []
    else [touches[|touches| - 1]] + Remove(Recent(touches[..|touches| - 1]), touches[|touches| - 1])
  }

  /** The first `cap` elements; a non-positive capacity does not bound the set. */
  function Bounded<K>(s: seq<K>, cap: int): seq<K> {
    if 0 < cap < |s| then s[..cap] else s
  }

  lemma {:induction false} RemoveHas<K(!new)>(s: seq<K>, k: K)
    ensures forall x :: x in Remove(s, k) <==> x in s && x != k
    ensures k !in s ==> Remove(s, k) == s
  {
    if s != [] {
      RemoveHas(s[1..], k);
      assert s == [s[0]] + s[1..];
    }
  }

  lemma DistinctRest<K(!new)>(s: seq<K>)
    requires NoRepeats(s) && s != []
    ensures NoRepeats(s[1..]) && s[0] !in s[1..] && forall k :: k in s <==> k == s[0] || k in s[1..]
  {
    assert s == [s[0]] + s[1..];
    assert forall i :: 0 < i < |s| ==> s[i] != s[0];
  }

  lemma DistinctMore<K(!new)>(k: K, rest: seq<K>)
    requires NoRepeats(rest) && k !in rest
    ensures NoRepeats([k] + rest)
  {
    assert forall i :: 0 <= i < |rest| ==> rest[i] in rest;
  }

  lemma RemoveFirst<K(!new)>(h: K, rest: seq<K>, k: K)
    ensures Remove([h] + rest, k) == if h == k then Remove(rest, k) else [h] + Remove(rest, k)
  {
    assert ([h] + rest)[1..] == rest;
  }

  lemma {:induction false} RemoveKeepsDistinct<K(!new)>(s: seq<K>, k: K)
    requires NoRepeats(s)
    ensures NoRepeats(Remove(s, k)) && |Remove(s, k)| == if k in s then |s| - 1 else |s|
  {
    hide NoRepeats;
    if s != [] {
      DistinctRest(s);
      RemoveKeepsDistinct(s[1..], k);
      RemoveHas(s[1..], k);
      if s[0] != k { DistinctMore(s[0], Remove(s[1..], k)); }
    }
  }

  lemma {:induction false} RecentIsDistinct<K(!new)>(touches: seq<K>)
    ensures NoRepeats(Recent(touches))
  {
    if touches != [] {
      var k, before := touches[|touches| - 1], Recent(touches[..|touches| - 1]);
      RecentIsDistinct(touches[..|touches| - 1]);
      RemoveKeepsDistinct(before, k);
      RemoveHas(before, k);
      DistinctMore(k, Remove(before, k));
    }
  }

  /** Bounding before or after removing a key that is within the bound differs only past the bound. */
  lemma {:induction false} RemoveTake<K(!new)>(s: seq<K>, k: K, n: nat)
    requires NoRepeats(s) && n < |s|
    ensures k in s[..n + 1] ==> |Remove(s, k)| >= n && Remove(s[..n + 1], k) == Remove(s, k)[..n]
    ensures k !in s[..n + 1] ==> |Remove(s, k)| >= n && Remove(s, k)[..n] == s[..n]
  {
    hide NoRepeats, Remove;
    var h, rest := s[0], s[1..];
    RemoveKeepsDistinct(s, k);
    DistinctRest(s);
    assert s == [h] + rest && s[..n + 1] == [h] + rest[..n];
    RemoveFirst(h, rest, k);
    RemoveFirst(h, rest[..n], k);
    if h == k {
      RemoveHas(rest, k);
      RemoveHas(rest[..n], k);
    } else if n > 0 {
      RemoveTake(rest, k, n - 1);
      assert s[..n] == [h] + rest[..n - 1];
      assert |Remove(rest, k)| >= n - 1 && ([h] + Remove(rest, k))[..n] == [h] + Remove(rest, k)[..n - 1];
    }
  }

  lemma DropLast<K(!new)>(s: seq<K>)
    requires s != [] && NoRepeats(s)
    ensures NoRepeats(s[..|s| - 1])
    ensures forall k :: k in s[..|s| - 1] <==> k in s && k != s[|s| - 1]
  {
    var less, last := s[..|s| - 1], s[|s| - 1];
    assert s == less + [last];
    assert forall i :: 0 <= i < |less| ==> less[i] == s[i] != last;
  }

  class LruSet<K(==,!new)> {
    const cap: int
    // Keys from most to least recently seen, and the key index of that list.
    var order: seq<K>
    var items: set<K>
    // Every key ever recorded or found, oldest first.
    ghost var touches: seq<K>

    /** In any run the set holds the most recently touched distinct keys, as many as fit, the latest in front. */
    ghost predicate Valid() reads this {
      && order == Bounded(Recent(touches), cap)
      && NoRepeats(order) && (forall k :: k in items <==> k in order) && (cap > 0 ==> |order| <= cap)
    }

    constructor (capacity: int)
      ensures Valid() && cap == capacity && order == [] && items == {} && touches == []
    {
      cap, order, items, touches := capacity, [], {}, [];
    }

    /** A hit moves the key to the front. */
    method Contains(key: K) returns (hit: bool)
      requires Valid()
      modifies this
      ensures Valid() && items == old(items)
      ensures hit <==> key in old(items)
      ensures touches == if hit then old(touches) + [key] else old(touches)
      ensures order == if hit then [key] + Remove(old(order), key) else old(order)
    {
      hide Remove, Recent, NoRepeats;
      if key !in items { return false; }
      RemoveKeepsDistinct(order, key);
      RemoveHas(order, key);
      DistinctMore(key, Remove(order, key));
      TouchKeepsRecent(touches, key, cap);
      order := [key] + Remove(order, key);
      touches := touches + [key];
      return true;
    }

    /** Records a key, evicting the least recently seen one past capacity. */
    method Add(key: K)
      requires Valid()
      modifies this
      ensures Valid() && key in items && items <= old(items) + {key} && touches == old(touches) + [key]
      ensures order == Bounded([key] + Remove(old(order), key), cap)
    {
      hide Remove, NoRepeats, Recent;
      RemoveKeepsDistinct(order, key);
      RemoveHas(order, key);
      DistinctMore(key, Remove(order, key));
      TouchKeepsRecent(touches, key, cap);
      touches := touches + [key];
      if key in items {
        order := [key] + Remove(order, key);
        return;
      }
      DropLast([key] + order);
      assert forall k :: k in [key] + order <==> k == key || k in order;
      order, items := [key] + order, items + {key};
      if cap > 0 && |order| > cap {
        var last := |order| - 1;
        assert key in order[..last] by { assert order[..last][0] == key; }
        order, items := order[..last], items - {order[last]};
      }
    }
  }

  /** The key's last touch is touch `i`. */
  ghost predicate LastTouched<K>(touches: seq<K>, k: K, i: int) {
    0 <= i < |touches| && touches[i] == k && forall j :: i < j < |touches| ==> touches[j] != k
  }

  /** Key `j` was touched after the last time `k` was. */
  ghost predicate TouchedLater<K(!new)>(touches: seq<K>, j: K, k: K) {
    forall a, b :: LastTouched(touches, j, a) && LastTouched(touches, k, b) ==> b < a
  }

  lemma {:induction false} RecentByLastTouch<K(!new)>(touches: seq<K>)
    ensures forall k :: k in Recent(touches) <==> k in touches
    ensures forall i, j :: 0 <= i < j < |Recent(touches)| ==>
      TouchedLater(touches, Recent(touches)[i], Recent(touches)[j])
  {
    if touches != [] {
      var n := |touches| - 1;
      var less, k := touches[..n], touches[n];
      var before := Recent(less);
      RecentByLastTouch(less);
      RemoveHas(before, k);
      RemoveKeepsOrder(before, k);
      assert touches == less + [k];
      hide Recent, Remove;
      var rest := Remove(before, k);
      assert forall i :: 0 <= i < |rest| ==> rest[i] in rest;
      forall x, y | x != k && y != k && TouchedLater(less, x, y) ensures TouchedLater(touches, x, y) {
        EarlierTouch(less, k, x);
        EarlierTouch(less, k, y);
      }
      forall x | x != k ensures TouchedLater(touches, k, x) {}
      hide TouchedLater;
      assert Recent(touches) == [k] + rest by { RecentFirst(touches); }
    }
  }

  lemma RecentFirst<K(!new)>(touches: seq<K>)
    requires touches != []
    ensures var n := |touches| - 1; Recent(touches) == [touches[n]] + Remove(Recent(touches[..n]), touches[n])
  {
  }

  lemma EarlierTouch<K(!new)>(touches: seq<K>, k: K, x: K)
    requires x != k
    ensures forall i :: LastTouched(touches + [k], x, i) <==> LastTouched(touches, x, i)
  {
    assert forall i :: 0 <= i < |touches| ==> (touches + [k])[i] == touches[i];
    assert (touches + [k])[|touches|] == k;
  }

  lemma {:induction false} RemoveKeepsOrder<K(!new)>(s: seq<K>, k: K)
    ensures forall i, j :: 0 <= i < j < |Remove(s, k)| ==> IsBefore(s, Remove(s, k)[i], Remove(s, k)[j])
  {
    if s != [] {
      var rest := Remove(s[1..], k);
      RemoveKeepsOrder(s[1..], k);
      RemoveHas(s[1..], k);
      assert s == [s[0]] + s[1..];
      forall x, y | IsBefore(s[1..], x, y) ensures IsBefore(s, x, y) {
        var i, j :| 0 <= i < j < |s[1..]| && s[1..][i] == x && s[1..][j] == y;
        assert s[i + 1] == x && s[j + 1] == y;
      }
      forall j | 0 <= j < |rest| ensures IsBefore(s, s[0], rest[j]) {
        assert rest[j] in s[1..];
        var i :| 0 <= i < |s[1..]| && s[1..][i] == rest[j];
        assert s[0] == s[0] && s[i + 1] == rest[j];
      }
      hide IsBefore;
    }
  }

  ghost predicate IsBefore<K>(s: seq<K>, x: K, y: K) { exists i, j :: 0 <= i < j < |s| && s[i] == x && s[j] == y }

  /** The bounded list holds keys touched later than all others, and leaves one out only for want of room. */
  lemma KeepsMostRecent<K(!new)>(touches: seq<K>, cap: int)
    ensures var kept := Bounded(Recent(touches), cap);
      && NoRepeats(kept) && (cap > 0 ==> |kept| <= cap) && (forall k :: k in kept ==> k in touches)
      && forall x :: x in touches && x !in kept ==>
           cap > 0 && |kept| == cap && forall k :: k in kept ==> TouchedLater(touches, k, x)
  {
    var all, kept := Recent(touches), Bounded(Recent(touches), cap);
    RecentByLastTouch(touches);
    RecentIsDistinct(touches);
    hide Recent, TouchedLater;
    forall x, k | x in touches && x !in kept && k in kept ensures TouchedLater(touches, k, x) {
      var j :| 0 <= j < |all| && all[j] == x;
      var i :| 0 <= i < |kept| && kept[i] == k;
      assert forall m :: 0 <= m < |kept| ==> all[m] == kept[m] && kept[m] in kept;
    }
    forall x | x in touches && x !in kept ensures cap > 0 && |kept| == cap { assert x in all; }
  }

  /** One more touch keeps the bounded list the most recently touched keys. */
  lemma TouchKeepsRecent<K(!new)>(touches: seq<K>, key: K, cap: int)
    ensures Bounded([key] + Remove(Bounded(Recent(touches), cap), key), cap) == Bounded(Recent(touches + [key]), cap)
  {
    var all := Recent(touches);
    assert (touches + [key])[..|touches|] == touches;
    assert Recent(touches + [key]) == [key] + Remove(all, key);
    RecentIsDistinct(touches);
    hide Recent, Remove, NoRepeats;
    RemoveKeepsDistinct(all, key);
    if 0 < cap < |all| {
      RemoveTake(all, key, cap - 1);
      RemoveHas(all[..cap], key);
      FirstOf(key, Remove(all, key), cap);
      FirstOf(key, all[..cap], cap);
      assert all[..cap][..cap - 1] == all[..cap - 1];
    }
  }

  lemma FirstOf<K(!new)>(key: K, rest: seq<K>, cap: int)
    requires 0 < cap <= |rest| + 1
    ensures Bounded([key] + rest, cap) == [key] + rest[..cap - 1]
  {
  }
}
