/** Python's `sorted` and `list.sort`: stable, for any order. */
module Sorting {

  ghost predicate TotalOrder<T(!new)>(leq: (T, T) -> bool) {
    && (forall a, b :: leq(a, b) || leq(b, a))
    && (forall a, b, c :: leq(a, b) && leq(b, c) ==> leq(a, c))
  }

  /** Places `x` behind the last element that does not come after it. */
  function Insert<T>(leq: (T, T) -> bool, rows: seq<T>, x: T): seq<T> {
    if rows == [] || leq(rows[|rows| - 1], x) then rows + [x]
    else Insert(leq, rows[..|rows| - 1], x) + [rows[|rows| - 1]]
  }

  function Sort<T>(leq: (T, T) -> bool, rows: seq<T>): seq<T> {
    if rows == [] then [] else Insert(leq, Sort(leq, rows[..|rows| - 1]), rows[|rows| - 1])
  }

  predicate Sorted<T>(leq: (T, T) -> bool, rows: seq<T>) {
    forall i, j :: 0 <= i < j < |rows| ==> leq(rows[i], rows[j])
  }

  predicate Distinct<T(==)>(rows: seq<T>) {
    forall i, j :: 0 <= i < j < |rows| ==> rows[i] != rows[j]
  }

  lemma {:induction false} InsertFacts<T(!new)>(leq: (T, T) -> bool, rows: seq<T>, x: T)
    requires TotalOrder(leq) && Sorted(leq, rows)
    ensures Sorted(leq, Insert(leq, rows, x)) && multiset(Insert(leq, rows, x)) == multiset(rows) + multiset{x}
    decreases |rows|
  {
    if rows != [] {
      var n := |rows| - 1;
      var last := rows[n];
      assert rows == rows[..n] + [last];
      if leq(last, x) {
        forall i | 0 <= i < n ensures leq(rows[i], x) {
          assert leq(rows[i], last);
        }
      } else {
        InsertFacts(leq, rows[..n], x);
        var r := Insert(leq, rows[..n], x);
        forall i | 0 <= i < |r| ensures leq(r[i], last) {
          assert r[i] in multiset(r);
          assert r[i] == x || r[i] in rows[..n];
        }
      }
    }
  }

  /** Sorting orders the elements and keeps each as often as it was there. */
  lemma {:induction false} SortFacts<T(!new)>(leq: (T, T) -> bool, rows: seq<T>)
    requires TotalOrder(leq)
    ensures Sorted(leq, Sort(leq, rows)) && multiset(Sort(leq, rows)) == multiset(rows)
    decreases |rows|
  {
    hide TotalOrder, Sorted;
    if rows != [] {
      var n := |rows| - 1;
      SortFacts(leq, rows[..n]);
      InsertFacts(leq, Sort(leq, rows[..n]), rows[n]);
      assert rows == rows[..n] + [rows[n]];
    } else {
      assert Sorted(leq, rows) by { NothingIsSorted(leq, rows); }
    }
  }

  lemma NothingIsSorted<T>(leq: (T, T) -> bool, rows: seq<T>)
    requires rows == []
    ensures Sorted(leq, rows)
  {
  }

  lemma SortKeepsElements<T(!new)>(leq: (T, T) -> bool, rows: seq<T>)
    requires TotalOrder(leq)
    ensures forall x :: x in Sort(leq, rows) <==> x in rows
  {
    hide TotalOrder;
    SortFacts(leq, rows);
    forall x ensures x in Sort(leq, rows) <==> x in rows {
      assert x in Sort(leq, rows) <==> x in multiset(Sort(leq, rows));
      assert x in rows <==> x in multiset(rows);
    }
  }

  lemma {:induction false} TwoPlaces<T>(rows: seq<T>, x: T) returns (i: nat, j: nat)
    requires multiset(rows)[x] >= 2
    ensures i < j < |rows| && rows[i] == x && rows[j] == x
  {
    var n := |rows| - 1;
    assert rows == rows[..n] + [rows[n]];
    if rows[n] == x {
      assert x in multiset(rows[..n]);
      i :| 0 <= i < n && rows[..n][i] == x;
      j := n;
    } else {
      i, j := TwoPlaces(rows[..n], x);
    }
  }

  lemma SortKeepsDistinct<T(!new)>(leq: (T, T) -> bool, rows: seq<T>)
    requires TotalOrder(leq) && Distinct(rows)
    ensures Distinct(Sort(leq, rows))
  {
    hide TotalOrder;
    SortFacts(leq, rows);
    var r := Sort(leq, rows);
    forall i, j | 0 <= i < j < |r| ensures r[i] != r[j] {
      if r[i] == r[j] {
        assert r == r[..j] + [r[j]] + r[j + 1..];
        assert r[..j][i] == r[j] && r[j] in multiset(r[..j]);
        var a, b := TwoPlaces(rows, r[j]);
      }
    }
  }

  /** The elements that are neither before nor after `v`, in the order they have. */
  function Alike<T>(leq: (T, T) -> bool, rows: seq<T>, v: T): seq<T> {
    if rows == [] then []
    else
      var n := |rows| - 1;
      Alike(leq, rows[..n], v) + if leq(rows[n], v) && leq(v, rows[n]) then [rows[n]] else []
  }

  lemma AlikeSnoc<T>(leq: (T, T) -> bool, rows: seq<T>, x: T, v: T)
    ensures Alike(leq, rows + [x], v) == Alike(leq, rows, v) + if leq(x, v) && leq(v, x) then [x] else []
  {
    assert (rows + [x])[..|rows|] == rows;
  }

  lemma {:induction false} InsertIsStable<T(!new)>(leq: (T, T) -> bool, rows: seq<T>, x: T, v: T)
    requires TotalOrder(leq)
    ensures Alike(leq, Insert(leq, rows, x), v) == Alike(leq, rows, v) + if leq(x, v) && leq(v, x) then [x] else []
    decreases |rows|
  {
    hide Alike;
    if rows == [] || leq(rows[|rows| - 1], x) {
      AlikeSnoc(leq, rows, x, v);
    } else {
      var n := |rows| - 1;
      var last := rows[n];
      InsertIsStable(leq, rows[..n], x, v);
      AlikeSnoc(leq, Insert(leq, rows[..n], x), last, v);
      AlikeSnoc(leq, rows[..n], last, v);
      assert rows == rows[..n] + [last];
    }
  }

  /** The sort is stable: elements that the order does not tell apart keep their order. */
  lemma {:induction false} SortIsStable<T(!new)>(leq: (T, T) -> bool, rows: seq<T>, v: T)
    requires TotalOrder(leq)
    ensures Alike(leq, Sort(leq, rows), v) == Alike(leq, rows, v)
    decreases |rows|
  {
    hide TotalOrder;
    if rows != [] {
      var n := |rows| - 1;
      SortIsStable(leq, rows[..n], v);
      InsertIsStable(leq, Sort(leq, rows[..n]), rows[n], v);
    }
  }
}
