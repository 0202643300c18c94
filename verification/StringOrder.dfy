/** Python's order on strings. */
module StringOrder {
  import opened Sorting

  /** `a <= b`, by code points. */
  predicate Leq(a: string, b: string) {
    a == "" || (b != "" && (a[0] < b[0] || (a[0] == b[0] && Leq(a[1..], b[1..]))))
  }

  lemma {:induction false} LeqTotal(a: string, b: string)
    ensures Leq(a, b) || Leq(b, a)
  {
    if a != "" && b != "" && a[0] == b[0] {
      LeqTotal(a[1..], b[1..]);
    }
  }

  lemma {:induction false} LeqTransitive(a: string, b: string, c: string)
    requires Leq(a, b) && Leq(b, c)
    ensures Leq(a, c)
  {
    if a != "" && a[0] == b[0] == c[0] {
      LeqTransitive(a[1..], b[1..], c[1..]);
    }
  }

  lemma LeqIsOrder()
    ensures TotalOrder(Leq)
  {
    forall a, b ensures Leq(a, b) || Leq(b, a) {
      LeqTotal(a, b);
    }
    forall a, b, c | Leq(a, b) && Leq(b, c) ensures Leq(a, c) {
      LeqTransitive(a, b, c);
    }
  }

  /** The first `k` characters are the same, and then one text is at its end or has the smaller
      character. */
  predicate FirstDiffersAt(a: string, b: string, k: nat) {
    k <= |a| && k <= |b| && a[..k] == b[..k] && (k == |a| || (k < |b| && a[k] < b[k]))
  }

  /** The order goes by the first difference. */
  lemma {:induction false} LeqExactly(a: string, b: string)
    ensures Leq(a, b) <==> exists k :: FirstDiffersAt(a, b, k)
  {
    if a == "" {
      assert FirstDiffersAt(a, b, 0);
    } else if b != "" {
      LeqExactly(a[1..], b[1..]);
      if a[0] < b[0] {
        assert FirstDiffersAt(a, b, 0);
      }
      if a[0] == b[0] && Leq(a[1..], b[1..]) {
        var k :| FirstDiffersAt(a[1..], b[1..], k);
        DiffersLater(a, b, k);
      }
      if k: nat :| FirstDiffersAt(a, b, k) && k > 0 {
        DiffersLater(a, b, k - 1);
      }
    }
  }

  lemma DiffersLater(a: string, b: string, k: nat)
    requires a != "" && b != ""
    ensures FirstDiffersAt(a, b, k + 1) <==> a[0] == b[0] && FirstDiffersAt(a[1..], b[1..], k)
  {
    if k + 1 <= |a| && k + 1 <= |b| {
      assert a[..k + 1] == [a[0]] + a[1..][..k] && b[..k + 1] == [b[0]] + b[1..][..k];
    }
  }
}
