/** Ranging over a Go map or set in an unspecified order and sorting what it yields. */
module Sorting {

  ghost predicate StrictTotalOrder<T(!new)>(less: (T, T) -> bool) {
    && (forall x :: !less(x, x))
    && (forall x, y, z :: less(x, y) && less(y, z) ==> less(x, z))
    && (forall x, y :: less(x, y) || x == y || less(y, x))
  }

  ghost predicate StrictlySorted<T(!new)>(less: (T, T) -> bool, s: seq<T>) {
    forall i, j | 0 <= i < j < |s| :: less(s[i], s[j])
  }

  ghost predicate Enumerates<T(!new)>(s: seq<T>, items: set<T>) {
    forall x :: x in s <==> x in items
  }

  /** A set has exactly one strictly sorted enumeration. */
  lemma {:induction false} SortedUnique<T(!new)>(less: (T, T) -> bool, s: seq<T>, t: seq<T>)
    requires StrictTotalOrder(less)
    requires StrictlySorted(less, s) && StrictlySorted(less, t)
    requires forall x :: x in s <==> x in t
    ensures s == t
  {
    assert forall i | 0 <= i < |s| :: s[i] in t;
    assert forall i | 0 <= i < |t| :: t[i] in s;
    if |s| == 0 || |t| == 0 {
    } else {
      assert s[0] == t[0];
      var s', t' := s[1..], t[1..];
      forall x ensures x in s' <==> x in t' {
        assert x in s <==> x == s[0] || x in s';
        assert x in t <==> x == t[0] || x in t';
        assert s[0] !in s' && t[0] !in t';
      }
      SortedUnique(less, s', t');
    }
  }

  /** Where x belongs in a strictly sorted sequence. */
  method InsertSorted<T(!new)>(less: (T, T) -> bool, s: seq<T>, x: T) returns (r: seq<T>)
    requires StrictTotalOrder(less) && StrictlySorted(less, s) && x !in s
    ensures StrictlySorted(less, r) && |r| == |s| + 1
    ensures forall y :: y in r <==> y in s || y == x
  {
    var k := 0;
    while k < |s| && less(s[k], x)
      invariant 0 <= k <= |s|
      invariant forall i | 0 <= i < k :: less(s[i], x)
    {
      k := k + 1;
    }
    InsertedSorted(less, s, k, x);
    r := Inserted(s, k, x);
  }

  function Inserted<T>(s: seq<T>, k: nat, x: T): (r: seq<T>)
    requires k <= |s|
    ensures |r| == |s| + 1
    ensures forall i | 0 <= i < |r| :: r[i] == if i < k then s[i] else if i == k then x else s[i - 1]
  {
    s[..k] + [x] + s[k..]
  }

  lemma {:induction false} InsertedSorted<T(!new)>(less: (T, T) -> bool, s: seq<T>, k: nat, x: T)
    requires StrictTotalOrder(less) && StrictlySorted(less, s) && x !in s && k <= |s|
    requires forall i | 0 <= i < k :: less(s[i], x)
    requires k < |s| ==> !less(s[k], x)
    ensures StrictlySorted(less, Inserted(s, k, x))
    ensures forall y :: y in Inserted(s, k, x) <==> y in s || y == x
  {
    var r := Inserted(s, k, x);
    assert k < |s| ==> less(x, s[k]);
    forall i, j | 0 <= i < j < |r| ensures less(r[i], r[j]) {
      if i == k && j > k + 1 {
        assert less(s[k], s[j - 1]);
      }
    }
    InsertedMembers(s, k, x);
  }

  lemma {:induction false} InsertedMembers<T(!new)>(s: seq<T>, k: nat, x: T)
    requires k <= |s|
    ensures forall y :: y in Inserted(s, k, x) <==> y in s || y == x
  {
    var r := Inserted(s, k, x);
    assert r[k] == x;
    forall y | y in s ensures y in r {
      var i :| 0 <= i < |s| && s[i] == y;
      assert r[if i < k then i else i + 1] == y;
    }
  }

  /** Collect a set in whatever order, sorted: `for k := range m { append }` then `sort.Slice`. */
  method SortedElements<T(==, !new)>(less: (T, T) -> bool, items: set<T>) returns (r: seq<T>)
    requires StrictTotalOrder(less)
    ensures StrictlySorted(less, r) && Enumerates(r, items) && |r| == |items|
  {
    r := [];
    var rest := items;
    while rest != {}
      invariant rest <= items
      invariant StrictlySorted(less, r) && |r| + |rest| == |items|
      invariant forall x :: x in r <==> x in items && x !in rest
      decreases rest
    {
      var x :| x in rest;
      r := InsertSorted(less, r, x);
      rest := rest - {x};
    }
  }
}
