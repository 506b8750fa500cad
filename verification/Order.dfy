// The byte order Go's `<` and sort.Strings, and DuckDB's VARCHAR comparison, use on identifiers.
module Order {
  datatype Option<+T> = None | Some(value: T)

  /** `a` comes strictly before `b` in byte order. */
  predicate Less(a: string, b: string) {
    if a == "" then b != ""
    else b != "" && (a[0] < b[0] || (a[0] == b[0] && Less(a[1..], b[1..])))
  }

  predicate LessEq(a: string, b: string) {
    a == b || Less(a, b)
  }

  lemma {:induction false} LessIsStrict(a: string, b: string)
    ensures !(Less(a, b) && Less(b, a))
    ensures Less(a, b) ==> a != b
    ensures Less(a, b) || a == b || Less(b, a)
  {
    if a != "" && b != "" {
      LessIsStrict(a[1..], b[1..]);
      assert a == [a[0]] + a[1..] && b == [b[0]] + b[1..];
    }
  }

  /** A proper prefix comes first, and otherwise the first byte that differs decides. */
  ghost predicate ComesFirst(a: string, b: string) {
    a < b || exists k :: 0 <= k < |a| && k < |b| && a[..k] == b[..k] && a[k] < b[k]
  }

  lemma {:induction false} LessIsByteOrder(a: string, b: string)
    ensures Less(a, b) <==> ComesFirst(a, b)
  {
    if a != "" && b != "" {
      forall k | 0 < k <= |a| && k <= |b| && a[..k] == b[..k] ensures a[0] == b[0] {
        assert a[..k][0] == a[0] && b[..k][0] == b[0];
      }
      LessIsByteOrder(a[1..], b[1..]);
      if a[0] == b[0] {
        if ComesFirst(a[1..], b[1..]) && !(a[1..] < b[1..]) {
          var k :| 0 <= k < |a| - 1 && k < |b| - 1 && a[1..][..k] == b[1..][..k] && a[1..][k] < b[1..][k];
          assert a[..k + 1] == [a[0]] + a[1..][..k] && b[..k + 1] == [b[0]] + b[1..][..k];
        }
        if ComesFirst(a, b) && !(a < b) {
          var k :| 0 <= k < |a| && k < |b| && a[..k] == b[..k] && a[k] < b[k];
          assert a[1..][..k - 1] == a[..k][1..] && b[1..][..k - 1] == b[..k][1..];
        }
      }
    }
  }

  lemma {:induction false} LessIsTransitive(a: string, b: string, c: string)
    requires Less(a, b) && Less(b, c)
    ensures Less(a, c)
  {
    if a != "" && a[0] == b[0] == c[0] {
      LessIsTransitive(a[1..], b[1..], c[1..]);
    }
  }
}
