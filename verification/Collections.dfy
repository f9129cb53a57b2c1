/** What several parts of the model share: an optional value, Go's maps of counters, and lists without repeats. */
module Collections {

  datatype Option<+T> = None | Some(value: T)

  /** How many of the first n elements equal x. */
  function Count<T(==)>(s: seq<T>, x: T, n: nat): nat
    requires n <= |s|
  {
    if n == 0 then 0 else Count(s, x, n - 1) + if s[n - 1] == x then 1 else 0
  }

  lemma {:induction false} CountPositive<T>(s: seq<T>, x: T, n: nat)
    requires n <= |s|
    ensures Count(s, x, n) > 0 <==> exists j :: 0 <= j < n && s[j] == x
  {
    if n > 0 {
      CountPositive(s, x, n - 1);
    }
  }

  lemma {:induction false} CountGrows<T>(s: seq<T>, x: T, m: nat, n: nat)
    requires m <= n <= |s|
    ensures Count(s, x, m) <= Count(s, x, n)
    ensures m < n && s[m] == x ==> Count(s, x, m) < Count(s, x, n)
  {
    if m < n {
      CountGrows(s, x, m, n - 1);
    }
  }

  /** Every number below the count is reached. */
  lemma {:induction false} CountAttained<T>(s: seq<T>, x: T, n: nat, m: nat) returns (i: nat)
    requires n <= |s| && m < Count(s, x, n)
    ensures i < n && s[i] == x && Count(s, x, i) == m
  {
    if s[n - 1] == x && Count(s, x, n - 1) == m {
      i := n - 1;
    } else {
      i := CountAttained(s, x, n - 1, m);
    }
  }

  lemma {:induction false} CountPrefix<T>(s: seq<T>, t: seq<T>, x: T, n: nat)
    requires n <= |s| && n <= |t| && s[..n] == t[..n]
    ensures Count(s, x, n) == Count(t, x, n)
  {
    if n > 0 {
      assert s[..n - 1] == s[..n][..n - 1] && t[..n - 1] == t[..n][..n - 1];
      assert s[n - 1] == s[..n][n - 1] && t[n - 1] == t[..n][n - 1];
      CountPrefix(s, t, x, n - 1);
    }
  }

  /** The count of a whole sequence does not depend on its order. */
  lemma {:induction false} CountIsMultiplicity<T>(s: seq<T>, x: T)
    ensures Count(s, x, |s|) == multiset(s)[x]
  {
    if s != [] {
      var n := |s| - 1;
      assert s == s[..n] + [s[n]];
      CountPrefix(s, s[..n], x, n);
      CountIsMultiplicity(s[..n], x);
    }
  }

  /** Reading an absent key of a Go map of counters. */
  function Tally<T>(m: map<T, nat>, k: T): nat { if k in m then m[k] else 0 }

  /** The map counts the first n keys. */
  ghost predicate Tallies<T(!new)>(m: map<T, nat>, keys: seq<T>, n: nat) {
    n <= |keys| && forall k :: Tally(m, k) == Count(keys, k, n)
  }

  lemma {:induction false} TallyStep<T(!new)>(m: map<T, nat>, keys: seq<T>, i: nat)
    requires i < |keys| && Tallies(m, keys, i)
    ensures Tallies(m[keys[i] := Tally(m, keys[i]) + 1], keys, i + 1)
  {
    var m' := m[keys[i] := Tally(m, keys[i]) + 1];
    forall k ensures Tally(m', k) == Count(keys, k, i + 1) {
      assert Tally(m, k) == Count(keys, k, i);
    }
  }

  /** `for _, k := range keys { count[k]++ }`. */
  method CountKeys<T(==, !new)>(keys: seq<T>) returns (count: map<T, nat>)
    ensures Tallies(count, keys, |keys|)
  {
    count := map[];
    for i := 0 to |keys|
      invariant Tallies(count, keys, i)
    {
      TallyStep(count, keys, i);
      count := count[keys[i] := Tally(count, keys[i]) + 1];
    }
  }

  ghost predicate NoDuplicates<T(!new)>(s: seq<T>) {
    forall i, j | 0 <= i < j < |s| :: s[i] != s[j]
  }

  ghost predicate Disjoint<T(!new)>(a: seq<T>, b: seq<T>) { forall x :: !(x in a && x in b) }

  lemma {:induction false} AppendDuplicates<T(!new)>(a: seq<T>, b: seq<T>)
    ensures NoDuplicates(a + b) <==> NoDuplicates(a) && NoDuplicates(b) && Disjoint(a, b)
  {
    var c := a + b;
    if NoDuplicates(c) {
      assert forall i, j | 0 <= i < j < |a| :: a[i] == c[i] && a[j] == c[j];
      forall i, j | 0 <= i < j < |b| ensures b[i] != b[j] {
        assert c[|a| + i] != c[|a| + j];
      }
      forall i, j | 0 <= i < |a| && 0 <= j < |b| ensures a[i] != b[j] {
        assert c[i] != c[|a| + j];
      }
    }
    if NoDuplicates(a) && NoDuplicates(b) && Disjoint(a, b) {
      forall i, j | 0 <= i < j < |c| ensures c[i] != c[j] {
        if i < |a| <= j {
          assert c[i] in a && c[j] in b;
        }
      }
    }
  }
}
