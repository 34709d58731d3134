/** What every Koios read shares: the order of hash strings and the parsed `Content-Range`. */
module KoiosWire {
  /** The parsed `Content-Range` of a page. */
  datatype Range = Absent | EmptyOf(total: nat) | Span(start: nat, end: nat, total: nat)

  predicate StringLess(a: string, b: string) {
    b != [] && (a == [] || a[0] < b[0] || (a[0] == b[0] && StringLess(a[1..], b[1..])))
  }

  lemma {:induction false} StringLessTransitive(a: string, b: string, c: string)
    requires StringLess(a, b) && StringLess(b, c)
    ensures StringLess(a, c)
  {
    if a != [] && a[0] == b[0] == c[0] {
      StringLessTransitive(a[1..], b[1..], c[1..]);
    }
  }

  lemma {:induction false} StringLessTotal(a: string, b: string)
    ensures StringLess(a, b) || a == b || StringLess(b, a)
    ensures !(StringLess(a, b) && StringLess(b, a)) && !StringLess(a, a)
  {
    if a != [] {
      StringLessTotal(a[1..], a[1..]);
    }
    if a != [] && b != [] && a[0] == b[0] {
      StringLessTotal(a[1..], b[1..]);
      assert a == [a[0]] + a[1..] && b == [b[0]] + b[1..];
    }
  }

  /** The strings are alike up to some place, where `a` ends or has the lower character. */
  ghost predicate FirstDifference(a: string, b: string) {
    exists k: nat :: k <= |a| && k < |b| && a[..k] == b[..k] && (k == |a| || a[k] < b[k])
  }

  lemma HigherFirst(a: string, b: string)
    requires b == [] || (a != [] && b[0] < a[0])
    ensures !FirstDifference(a, b)
  {
    forall k: nat | 0 < k <= |a| && k < |b| ensures a[..k] != b[..k] {
      assert a[..k][0] == a[0] && b[..k][0] == b[0];
    }
  }

  lemma SameFirst(a: string, b: string)
    requires a != [] && b != [] && a[0] == b[0]
    ensures FirstDifference(a, b) <==> FirstDifference(a[1..], b[1..])
  {
    if k: nat :| k <= |a[1..]| && k < |b[1..]| && a[1..][..k] == b[1..][..k] && (k == |a[1..]| || a[1..][k] < b[1..][k]) {
      assert a[..k + 1] == [a[0]] + a[1..][..k] && b[..k + 1] == [b[0]] + b[1..][..k];
    }
    if k: nat :| 0 < k <= |a| && k < |b| && a[..k] == b[..k] && (k == |a| || a[k] < b[k]) {
      var j: nat := k - 1;
      assert a[1..][..j] == a[..k][1..] && b[1..][..j] == b[..k][1..];
    }
  }

  /** So strings are compared by the first character in which they differ, a beginning before the whole. */
  lemma {:induction false} StringLessIsFirstDifference(a: string, b: string)
    ensures StringLess(a, b) <==> FirstDifference(a, b)
  {
    if b == [] || (a != [] && b[0] < a[0]) {
      HigherFirst(a, b);
    } else if a != [] && a[0] == b[0] {
      StringLessIsFirstDifference(a[1..], b[1..]);
      SameFirst(a, b);
    } else {
      assert a[..0] == b[..0];
    }
  }
}
