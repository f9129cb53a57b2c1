/** The "did you mean" hint of the command line: cmd/pinch/completion.go.
    Levenshtein's two-row loop is proved to return the length of a shortest chain of
    single-character edits, a notion that does not mention rows, prefixes or minima. */
module EditDistance {

  // ---------- What an edit distance is ----------

  /** b is a with one element deleted. */
  ghost predicate Deletes<T(!new)>(a: seq<T>, b: seq<T>) {
    exists u: seq<T>, x: T, v: seq<T> :: a == u + [x] + v && b == u + v
  }

  /** b is a with one element replaced. */
  ghost predicate Replaces<T(!new)>(a: seq<T>, b: seq<T>) {
    exists u: seq<T>, x: T, y: T, v: seq<T> :: a == u + [x] + v && b == u + [y] + v
  }

  /** One insertion, deletion or substitution, at any position. */
  ghost predicate OneEdit<T(!new)>(a: seq<T>, b: seq<T>) {
    Deletes(a, b) || Deletes(b, a) || Replaces(a, b)
  }

  /** What one edit can do, anywhere in a string: take an element out, put one in, or put another in its place. */
  lemma {:induction false} OneEditForms<T(!new)>(u: seq<T>, x: T, y: T, v: seq<T>)
    ensures OneEdit(u + [x] + v, u + v) && OneEdit(u + v, u + [x] + v) && OneEdit(u + [x] + v, u + [y] + v)
  {
    assert Deletes(u + [x] + v, u + v);
    assert Replaces(u + [x] + v, u + [y] + v);
  }

  /** Some chain of exactly k single edits turns a into b. */
  ghost predicate Reaches<T(!new)>(a: seq<T>, b: seq<T>, k: nat)
    decreases k
  {
    if k == 0 then a == b else exists c: seq<T> :: OneEdit(a, c) && Reaches(c, b, k - 1)
  }

  /** d is the least number of single edits that turn a into b. */
  ghost predicate IsEditDistance<T(!new)>(a: seq<T>, b: seq<T>, d: nat) {
    Reaches(a, b, d) && forall k: nat :: Reaches(a, b, k) ==> d <= k
  }

  // ---------- The recurrence the loop tabulates ----------

  function Min3(a: int, b: int, c: int): (m: int)
    ensures m <= a && m <= b && m <= c && (m == a || m == b || m == c)
  {
    var least := if b < a then b else a;
    if c < least then c else least
  }

  /** The distance between two prefixes, by their last elements. */
  function Dist<T(==)>(a: seq<T>, b: seq<T>): (d: nat)
    decreases |a| + |b|
  {
    if a == [] then |b|
    else if b == [] then |a|
    else
      var a', b' := a[..|a| - 1], b[..|b| - 1];
      var cost := if a[|a| - 1] == b[|b| - 1] then 0 else 1;
      Min3(Dist(a, b') + 1, Dist(a', b) + 1, Dist(a', b') + cost)
  }

  lemma {:induction false} DistSnoc<T>(a: seq<T>, x: T, b: seq<T>, y: T)
    ensures Dist(a + [x], b + [y])
         == Min3(Dist(a + [x], b) + 1, Dist(a, b + [y]) + 1, Dist(a, b) + if x == y then 0 else 1)
  {
    assert (a + [x])[..|a|] == a && (b + [y])[..|b|] == b;
  }

  // ---------- No chain is shorter than the recurrence ----------

  /** Deleting the last element moves the distance to any b by at most one. */
  lemma {:induction false} DeleteLastIsLipschitz<T>(u: seq<T>, x: T, b: seq<T>)
    ensures -1 <= Dist(u + [x], b) - Dist(u, b) <= 1
    decreases |b|
  {
    if b == [] {
      assert Dist(u + [x], b) == |u| + 1;
    } else {
      var b', y := b[..|b| - 1], b[|b| - 1];
      assert b == b' + [y];
      DeleteLastIsLipschitz(u, x, b');
      DistSnoc(u, x, b', y);
      InsertLast(u, b', y);
    }
  }

  lemma {:induction false} InsertLast<T>(u: seq<T>, b: seq<T>, y: T)
    ensures Dist(u, b + [y]) <= Dist(u, b) + 1
  {
    assert (b + [y])[..|b|] == b;
  }

  /** A bound on all three neighbours is a bound on the entry itself. */
  lemma {:induction false} SnocIsLipschitz<T>(p: seq<T>, q: seq<T>, z: T, b: seq<T>, y: T)
    requires Dist(p, b + [y]) <= Dist(q, b + [y]) + 1
    requires Dist(p + [z], b) <= Dist(q + [z], b) + 1
    requires Dist(p, b) <= Dist(q, b) + 1
    ensures Dist(p + [z], b + [y]) <= Dist(q + [z], b + [y]) + 1
  {
    DistSnoc(p, z, b, y);
    DistSnoc(q, z, b, y);
  }

  /** Deleting one element moves the distance to any b by at most one. */
  lemma {:induction false} DeleteIsLipschitz<T>(u: seq<T>, x: T, v: seq<T>, b: seq<T>)
    ensures -1 <= Dist(u + [x] + v, b) - Dist(u + v, b) <= 1
    decreases |v| + |b|
  {
    if v == [] {
      assert u + [x] + v == u + [x] && u + v == u;
      DeleteLastIsLipschitz(u, x, b);
    } else if b == [] {
      assert Dist(u + [x] + v, b) == |u| + 1 + |v|;
    } else {
      var b', y := b[..|b| - 1], b[|b| - 1];
      var v', z := v[..|v| - 1], v[|v| - 1];
      assert b == b' + [y];
      assert u + [x] + v == (u + [x] + v') + [z] && u + v == (u + v') + [z];
      DeleteIsLipschitz(u, x, v', b);
      DeleteIsLipschitz(u, x, v, b');
      DeleteIsLipschitz(u, x, v', b');
      SnocIsLipschitz(u + [x] + v', u + v', z, b', y);
      SnocIsLipschitz(u + v', u + [x] + v', z, b', y);
    }
  }

  /** Replacing the last element moves the distance to any b by at most one. */
  lemma {:induction false} ReplaceLastIsLipschitz<T>(u: seq<T>, x: T, x': T, b: seq<T>)
    ensures Dist(u + [x], b) <= Dist(u + [x'], b) + 1
    decreases |b|
  {
    if b == [] {
      assert Dist(u + [x], b) == |u| + 1;
      assert Dist(u + [x'], b) == |u| + 1;
    } else {
      var b', y := b[..|b| - 1], b[|b| - 1];
      assert b == b' + [y];
      ReplaceLastIsLipschitz(u, x, x', b');
      DistSnoc(u, x, b', y);
      DistSnoc(u, x', b', y);
    }
  }

  /** Replacing one element moves the distance to any b by at most one. */
  lemma {:induction false} ReplaceIsLipschitz<T>(u: seq<T>, x: T, x': T, v: seq<T>, b: seq<T>)
    ensures Dist(u + [x] + v, b) <= Dist(u + [x'] + v, b) + 1
    decreases |v| + |b|
  {
    if v == [] {
      assert u + [x] + v == u + [x] && u + [x'] + v == u + [x'];
      ReplaceLastIsLipschitz(u, x, x', b);
    } else if b == [] {
      assert Dist(u + [x] + v, b) == |u| + 1 + |v|;
      assert Dist(u + [x'] + v, b) == |u| + 1 + |v|;
    } else {
      var b', y := b[..|b| - 1], b[|b| - 1];
      var v', z := v[..|v| - 1], v[|v| - 1];
      assert b == b' + [y];
      assert u + [x] + v == (u + [x] + v') + [z] && u + [x'] + v == (u + [x'] + v') + [z];
      ReplaceIsLipschitz(u, x, x', v', b);
      ReplaceIsLipschitz(u, x, x', v, b');
      ReplaceIsLipschitz(u, x, x', v', b');
      SnocIsLipschitz(u + [x] + v', u + [x'] + v', z, b', y);
    }
  }

  lemma {:induction false} OneEditIsLipschitz<T(!new)>(a: seq<T>, c: seq<T>, b: seq<T>)
    requires OneEdit(a, c)
    ensures Dist(a, b) <= Dist(c, b) + 1
  {
    if Deletes(a, c) {
      var u, x, v :| a == u + [x] + v && c == u + v;
      DeleteIsLipschitz(u, x, v, b);
    } else if Deletes(c, a) {
      var u, x, v :| c == u + [x] + v && a == u + v;
      DeleteIsLipschitz(u, x, v, b);
    } else {
      var u, x, x', v :| a == u + [x] + v && c == u + [x'] + v;
      ReplaceIsLipschitz(u, x, x', v, b);
    }
  }

  lemma {:induction false} DistToSelf<T>(a: seq<T>)
    ensures Dist(a, a) == 0
  {
    if a == [] {
    } else {
      DistToSelf(a[..|a| - 1]);
    }
  }

  lemma {:induction false} ChainsAreNoShorter<T(!new)>(a: seq<T>, b: seq<T>, k: nat)
    requires Reaches(a, b, k)
    ensures Dist(a, b) <= k
    decreases k
  {
    if k == 0 {
      DistToSelf(a);
    } else {
      var c :| OneEdit(a, c) && Reaches(c, b, k - 1);
      ChainsAreNoShorter(c, b, k - 1);
      OneEditIsLipschitz(a, c, b);
    }
  }

  // ---------- Some chain is as short as the recurrence ----------

  lemma {:induction false} OneEditSnoc<T(!new)>(a: seq<T>, b: seq<T>, z: T)
    requires OneEdit(a, b)
    ensures OneEdit(a + [z], b + [z])
  {
    if Deletes(a, b) {
      var u, x, v :| a == u + [x] + v && b == u + v;
      assert a + [z] == u + [x] + (v + [z]) && b + [z] == u + (v + [z]);
    } else if Deletes(b, a) {
      var u, x, v :| b == u + [x] + v && a == u + v;
      assert b + [z] == u + [x] + (v + [z]) && a + [z] == u + (v + [z]);
    } else {
      var u, x, y, v :| a == u + [x] + v && b == u + [y] + v;
      assert a + [z] == u + [x] + (v + [z]) && b + [z] == u + [y] + (v + [z]);
    }
  }

  lemma {:induction false} OneEditSymmetric<T(!new)>(a: seq<T>, b: seq<T>)
    ensures OneEdit(a, b) <==> OneEdit(b, a)
  {
    if Replaces(a, b) {
      var u, x, y, v :| a == u + [x] + v && b == u + [y] + v;
      assert Replaces(b, a);
    }
    if Replaces(b, a) {
      var u, x, y, v :| b == u + [x] + v && a == u + [y] + v;
      assert Replaces(a, b);
    }
  }

  lemma {:induction false} ReachesSnoc<T(!new)>(a: seq<T>, b: seq<T>, z: T, k: nat)
    requires Reaches(a, b, k)
    ensures Reaches(a + [z], b + [z], k)
    decreases k
  {
    if k == 0 {
    } else {
      var c :| OneEdit(a, c) && Reaches(c, b, k - 1);
      OneEditSnoc(a, c, z);
      ReachesSnoc(c, b, z, k - 1);
    }
  }

  /** Chains compose. */
  lemma {:induction false} ReachesTransitive<T(!new)>(a: seq<T>, b: seq<T>, c: seq<T>, k: nat, m: nat)
    requires Reaches(a, b, k) && Reaches(b, c, m)
    ensures Reaches(a, c, k + m)
    decreases k
  {
    if k == 0 {
    } else {
      var a' :| OneEdit(a, a') && Reaches(a', b, k - 1);
      ReachesTransitive(a', b, c, k - 1, m);
    }
  }

  /** Chains can be run backwards. */
  lemma {:induction false} ReachesReversed<T(!new)>(a: seq<T>, b: seq<T>, k: nat)
    requires Reaches(a, b, k)
    ensures Reaches(b, a, k)
    decreases k
  {
    if k == 0 {
    } else {
      var c :| OneEdit(a, c) && Reaches(c, b, k - 1);
      ReachesReversed(c, b, k - 1);
      OneEditSymmetric(a, c);
      ReachesOnce(c, a);
      ReachesTransitive(b, c, a, k - 1, 1);
    }
  }

  lemma {:induction false} ReachesOnce<T(!new)>(a: seq<T>, b: seq<T>)
    requires OneEdit(a, b)
    ensures Reaches(a, b, 1)
  {
    assert Reaches(b, b, 0);
  }

  lemma {:induction false} DropLast<T(!new)>(a: seq<T>)
    requires a != []
    ensures OneEdit(a, a[..|a| - 1]) && OneEdit(a[..|a| - 1], a)
  {
    var u, x, v := a[..|a| - 1], a[|a| - 1], [];
    assert a == u + [x] + v && u == u + v;
    assert Deletes(a, u);
  }

  /** A chain between two strings without their last elements gives one between the strings. */
  lemma {:induction false} ReachesThroughLast<T(!new)>(a: seq<T>, x: T, b: seq<T>, y: T, k: nat)
    requires Reaches(a, b, k)
    ensures Reaches(a + [x], b + [y], k + if x == y then 0 else 1)
  {
    ReachesSnoc(a, b, x, k);
    if x != y {
      assert b + [x] == b + [x] + [] && b + [y] == b + [y] + [];
      assert Replaces(b + [x], b + [y]);
      ReachesOnce(b + [x], b + [y]);
      ReachesTransitive(a + [x], b + [x], b + [y], k, 1);
    }
  }

  lemma {:induction false} ReachesByInsert<T(!new)>(a: seq<T>, b: seq<T>, k: nat)
    requires b != [] && Reaches(a, b[..|b| - 1], k)
    ensures Reaches(a, b, k + 1)
  {
    DropLast(b);
    ReachesOnce(b[..|b| - 1], b);
    ReachesTransitive(a, b[..|b| - 1], b, k, 1);
  }

  lemma {:induction false} DistIsReached<T(!new)>(a: seq<T>, b: seq<T>)
    ensures Reaches(a, b, Dist(a, b))
    decreases |a| + |b|
  {
    if a == [] && b == [] {
    } else if b == [] || (a != [] && Dist(a, b) == Dist(a[..|a| - 1], b) + 1) {
      DistIsReached(a[..|a| - 1], b);
      DropLast(a);
    } else if a == [] || Dist(a, b) == Dist(a, b[..|b| - 1]) + 1 {
      DistIsReached(a, b[..|b| - 1]);
      ReachesByInsert(a, b, Dist(a, b[..|b| - 1]));
    } else {
      var a', b', x, y := a[..|a| - 1], b[..|b| - 1], a[|a| - 1], b[|b| - 1];
      DistIsReached(a', b');
      assert a == a' + [x] && b == b' + [y];
      ReachesThroughLast(a', x, b', y, Dist(a', b'));
    }
  }

  /** The recurrence computes the edit distance. */
  lemma {:induction false} DistIsEditDistance<T(!new)>(a: seq<T>, b: seq<T>)
    ensures IsEditDistance(a, b, Dist(a, b))
  {
    DistIsReached(a, b);
    forall k: nat | Reaches(a, b, k)
      ensures Dist(a, b) <= k
    {
      ChainsAreNoShorter(a, b, k);
    }
  }

  // ---------- The code ----------

  /** completion.go `levenshtein`: two rows of the table, filled left to right. */
  method Levenshtein<T(==, !new)>(a: seq<T>, b: seq<T>) returns (d: nat)
    ensures IsEditDistance(a, b, d)
    ensures d == Dist(a, b)
  {
    DistIsEditDistance(a, b);
    var la, lb := |a|, |b|;
    if la == 0 {
      return lb;
    }
    if lb == 0 {
      return la;
    }
    var prev := new int[lb + 1](j => j);
    for i := 1 to la + 1
      invariant prev.Length == lb + 1
      invariant IsRow(prev[..], a[..i - 1], b)
    {
      var cur := NextRow(prev, a[i - 1], b, i);
      SnocPrefix(a, i);
      NextRowHoldsDistances(prev[..], cur[..], a[..i - 1], a[i - 1], b);
      prev := cur;
    }
    assert a[..la] == a && b[..lb] == b;
    return prev[lb];
  }

  /** A row of the table holds the distances from one prefix of a to every prefix of b. */
  ghost predicate IsRow<T>(row: seq<int>, a: seq<T>, b: seq<T>) {
    |row| == |b| + 1 && forall k {:trigger row[k]} :: 0 <= k <= |b| ==> row[k] == Dist(a, b[..k])
  }

  /** Each entry of cur is the cheapest way out of its three neighbours. */
  ghost predicate Follows<T>(prev: seq<int>, cur: seq<int>, x: T, b: seq<T>) {
    && |prev| == |cur| == |b| + 1
    && forall k :: 1 <= k <= |b| ==>
      cur[k] == Min3(cur[k - 1] + 1, prev[k] + 1, prev[k - 1] + if x == b[k - 1] then 0 else 1)
  }

  lemma {:induction false} SnocPrefix<T>(a: seq<T>, i: nat)
    requires 1 <= i <= |a|
    ensures a[..i] == a[..i - 1] + [a[i - 1]]
  {
  }

  lemma {:induction false} EntryHoldsDistance<T>(prev: seq<int>, cur: seq<int>, a: seq<T>, x: T, b: seq<T>, j: nat)
    requires IsRow(prev, a, b) && Follows(prev, cur, x, b) && cur[0] == |a| + 1 && j <= |b|
    ensures cur[j] == Dist(a + [x], b[..j])
  {
    if j == 0 {
    } else {
      EntryHoldsDistance(prev, cur, a, x, b, j - 1);
      SnocPrefix(b, j);
      EntryStep(prev[j], prev[j - 1], cur[j - 1], a, x, b[..j - 1], b[j - 1]);
    }
  }

  lemma {:induction false} EntryStep<T>(above: int, corner: int, left: int, a: seq<T>, x: T, b: seq<T>, y: T)
    requires above == Dist(a, b + [y]) && corner == Dist(a, b) && left == Dist(a + [x], b)
    ensures Dist(a + [x], b + [y]) == Min3(left + 1, above + 1, corner + if x == y then 0 else 1)
  {
    DistSnoc(a, x, b, y);
  }

  lemma {:induction false} NextRowHoldsDistances<T>(prev: seq<int>, cur: seq<int>, a: seq<T>, x: T, b: seq<T>)
    requires IsRow(prev, a, b) && Follows(prev, cur, x, b) && cur[0] == |a| + 1
    ensures IsRow(cur, a + [x], b)
  {
    forall j | 0 <= j <= |b|
      ensures cur[j] == Dist(a + [x], b[..j])
    {
      EntryHoldsDistance(prev, cur, a, x, b, j);
    }
  }

  /** The body of the outer loop: one row from the row above it. */
  method NextRow<T(==)>(prev: array<int>, x: T, b: seq<T>, i: nat) returns (cur: array<int>)
    requires prev.Length == |b| + 1
    ensures fresh(cur) && cur.Length == |b| + 1 && cur[0] == i
    ensures Follows(prev[..], cur[..], x, b)
  {
    var lb := |b|;
    cur := new int[lb + 1];
    cur[0] := i;
    for j := 1 to lb + 1
      invariant cur[0] == i
      invariant forall k :: 1 <= k < j ==>
        cur[k] == Min3(cur[k - 1] + 1, prev[k] + 1, prev[k - 1] + if x == b[k - 1] then 0 else 1)
    {
      var cost := if x == b[j - 1] then 0 else 1;
      cur[j] := Min3(cur[j - 1] + 1, prev[j] + 1, prev[j - 1] + cost);
    }
  }

  /** Swapping the arguments leaves the distance alone. */
  lemma {:induction false} EditDistanceSymmetric<T(!new)>(a: seq<T>, b: seq<T>, d: nat, e: nat)
    requires IsEditDistance(a, b, d) && IsEditDistance(b, a, e)
    ensures d == e
  {
    ReachesReversed(a, b, d);
    ReachesReversed(b, a, e);
  }

  /** Going through a third string never helps. */
  lemma {:induction false} EditDistanceTriangle<T(!new)>(a: seq<T>, b: seq<T>, c: seq<T>, ab: nat, bc: nat, ac: nat)
    requires IsEditDistance(a, b, ab) && IsEditDistance(b, c, bc) && IsEditDistance(a, c, ac)
    ensures ac <= ab + bc
  {
    ReachesTransitive(a, b, c, ab, bc);
  }

  /** The earliest candidate at least distance from arg. */
  ghost predicate IsNearest(candidates: seq<string>, arg: string, at: nat) {
    && at < |candidates|
    && (forall i | 0 <= i < |candidates| :: Dist(arg, candidates[at]) <= Dist(arg, candidates[i]))
    && (forall i | 0 <= i < at :: Dist(arg, candidates[at]) < Dist(arg, candidates[i]))
  }

  /** completion.go `nearestSubcommand`, over any list of subcommands: the nearest one if it is
      within distance 2, and "" exactly when none is. */
  method NearestSubcommand(subcommands: seq<string>, arg: string) returns (best: string)
    ensures (exists at: nat ::
               IsNearest(subcommands, arg, at) && Dist(arg, subcommands[at]) <= 2 && best == subcommands[at])
         || (best == "" && forall i | 0 <= i < |subcommands| :: Dist(arg, subcommands[i]) > 2)
  {
    var bestDist;
    ghost var at := -1;
    best, bestDist := "", 3;
    for n := 0 to |subcommands|
      invariant at == -1 ==> best == "" && bestDist == 3
      invariant at != -1 ==> 0 <= at < n && best == subcommands[at] && bestDist == Dist(arg, best) <= 2
      invariant forall i | 0 <= i < n :: bestDist <= Dist(arg, subcommands[i])
      invariant forall i | 0 <= i < at :: bestDist < Dist(arg, subcommands[i])
    {
      var d := Levenshtein(arg, subcommands[n]);
      if d < bestDist {
        best, bestDist, at := subcommands[n], d, n;
      }
    }
    assert at != -1 ==> IsNearest(subcommands, arg, at);
  }
}
