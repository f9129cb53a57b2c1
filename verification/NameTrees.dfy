/** Nested things with names of several parts, each named under the one it is in: when all full names are distinct. */
module NameTrees {
  import opened Collections

  type Name = seq<string>
  type Parts = p: Name | p != [] witness [""]

  datatype Named = Named(parts: Parts, inside: seq<Named>)

  /** The full names of t and of what is in it, t first. */
  ghost function Names(prefix: Name, t: Named): seq<Name>
    decreases t, 0
  {
    [prefix + t.parts] + NamesFrom(prefix + t.parts, t.inside, 0)
  }

  /** The full names of some siblings, from the i-th on. */
  ghost function NamesFrom(prefix: Name, ts: seq<Named>, i: nat): seq<Name>
    requires i <= |ts|
    decreases ts, |ts| - i
  {
    if i == |ts| then [] else Names(prefix, ts[i]) + NamesFrom(prefix, ts, i + 1)
  }

  /** The name of t or of something in it, below what t is in. */
  ghost predicate SpellsIn(t: Named, w: Name)
    decreases |w|, 0
  {
    t.parts <= w && (w == t.parts || Spells(t.inside, w[|t.parts|..]))
  }

  /** The name of one of the siblings or of something in one. */
  ghost predicate Spells(ts: seq<Named>, w: Name)
    decreases |w|, 1
  {
    exists t :: t in ts && SpellsIn(t, w)
  }

  /** The name of t goes on where that of s ends, and what it goes on with, followed by a name inside t if need be, is a
      name inside s. */
  ghost predicate Shadows(s: Named, t: Named) { exists x :: ShadowsBy(s, t, x) }

  ghost predicate ShadowsBy(s: Named, t: Named, x: Name) {
    s.parts < t.parts && Within(t, x) && Spells(s.inside, t.parts[|s.parts|..] + x)
  }

  /** Nothing, or a name inside t. */
  ghost predicate Within(t: Named, x: Name) { x == [] || Spells(t.inside, x) }

  ghost predicate Apart(s: Named, t: Named) { s.parts != t.parts && !Shadows(s, t) && !Shadows(t, s) }

  /** At every level, siblings have different names and none shadows another. */
  ghost predicate AllApart(ts: seq<Named>) {
    && (forall i, j | 0 <= i < j < |ts| :: Apart(ts[i], ts[j]))
    && (forall i | 0 <= i < |ts| :: AllApart(ts[i].inside))
  }

  // ---------- Shared names ----------

  ghost predicate Shared(s: Named, t: Named) { exists w :: SpellsIn(s, w) && SpellsIn(t, w) }

  lemma {:induction false} WithinSplit(t: Named, w: Name)
    ensures SpellsIn(t, w) <==> t.parts <= w && Within(t, w[|t.parts|..])
  {
    if t.parts <= w {
      assert w == t.parts <==> w[|t.parts|..] == [];
    }
  }

  lemma {:induction false} SharedIff(s: Named, t: Named)
    ensures Shared(s, t) <==> !Apart(s, t)
  {
    if Shared(s, t) {
      var w :| SpellsIn(s, w) && SpellsIn(t, w);
      SharedOneWay(s, t, w);
      SharedOneWay(t, s, w);
    }
    if s.parts == t.parts {
      assert SpellsIn(s, s.parts) && SpellsIn(t, s.parts);
    }
    if Shadows(s, t) {
      ShadowIsShared(s, t);
    }
    if Shadows(t, s) {
      ShadowIsShared(t, s);
    }
  }

  lemma {:induction false} SharedOneWay(s: Named, t: Named, w: Name)
    requires SpellsIn(s, w) && SpellsIn(t, w)
    ensures s.parts <= t.parts || t.parts <= s.parts
    ensures s.parts < t.parts ==> Shadows(s, t)
  {
    var p, q := s.parts, t.parts;
    WithinSplit(s, w);
    WithinSplit(t, w);
    assert p == w[..|p|] && q == w[..|q|];
    if p < q {
      var x := w[|q|..];
      assert w[|p|..] == q[|p|..] + x;
      assert ShadowsBy(s, t, x);
    }
  }

  lemma {:induction false} ShadowIsShared(s: Named, t: Named)
    requires Shadows(s, t)
    ensures Shared(s, t) && Shared(t, s)
  {
    var x: Name :| ShadowsBy(s, t, x);
    var p, q := s.parts, t.parts;
    var w := q + x;
    assert w[|q|..] == x && w[|p|..] == q[|p|..] + x;
    WithinSplit(s, w);
    WithinSplit(t, w);
    assert SpellsIn(s, w) && SpellsIn(t, w);
  }

  // ---------- Where the full names come from ----------

  lemma {:induction false} PrefixSplit(a: Name, b: Name, w: Name)
    ensures a + b <= w <==> a <= w && b <= w[|a|..]
    ensures a + b <= w ==> w[|a|..][|b|..] == w[|a + b|..]
  {
    if a + b <= w {
      assert a == (a + b)[..|a|] == w[..|a|];
      assert b == (a + b)[|a|..] == w[|a|..|a| + |b|];
    }
    if a <= w && b <= w[|a|..] {
      assert a + b == w[..|a| + |b|];
    }
  }

  /** The name below the prefix is that of t or of something in it. */
  ghost predicate Below(prefix: Name, t: Named, w: Name) { prefix <= w && SpellsIn(t, w[|prefix|..]) }

  lemma {:induction false} InNames(prefix: Name, t: Named, w: Name)
    ensures w in Names(prefix, t) <==> Below(prefix, t, w)
    decreases t, 0
  {
    var p := prefix + t.parts;
    InNamesFrom(p, t.inside, 0, w);
    BelowSplit(prefix, t, w);
  }

  lemma {:induction false} BelowSplit(prefix: Name, t: Named, w: Name)
    ensures var p := prefix + t.parts;
            Below(prefix, t, w) <==> w == p || (p <= w && Spells(t.inside, w[|p|..]))
  {
    var p := prefix + t.parts;
    PrefixSplit(prefix, t.parts, w);
    if p <= w {
      assert w[|p|..] == [] <==> w == p;
      assert w[|prefix|..] == t.parts <==> w[|prefix|..][|t.parts|..] == [];
    }
  }

  lemma {:induction false} InNamesFrom(prefix: Name, ts: seq<Named>, i: nat, w: Name)
    requires i <= |ts|
    ensures w in NamesFrom(prefix, ts, i) <==> BelowFrom(prefix, ts, i, w)
    ensures i == 0 ==> (w in NamesFrom(prefix, ts, i) <==> prefix <= w && Spells(ts, w[|prefix|..]))
    decreases ts, |ts| - i
  {
    if i < |ts| {
      InNames(prefix, ts[i], w);
      InNamesFrom(prefix, ts, i + 1, w);
      BelowNext(prefix, ts, i, w);
    }
    if i == 0 {
      BelowFirst(prefix, ts, w);
    }
  }

  ghost predicate BelowFrom(prefix: Name, ts: seq<Named>, i: nat, w: Name) {
    exists k :: i <= k < |ts| && Below(prefix, ts[k], w)
  }

  lemma {:induction false} BelowNext(prefix: Name, ts: seq<Named>, i: nat, w: Name)
    requires i < |ts|
    ensures BelowFrom(prefix, ts, i, w) <==> Below(prefix, ts[i], w) || BelowFrom(prefix, ts, i + 1, w)
  {
  }

  lemma {:induction false} BelowFirst(prefix: Name, ts: seq<Named>, w: Name)
    ensures BelowFrom(prefix, ts, 0, w) <==> prefix <= w && Spells(ts, w[|prefix|..])
  {
    if prefix <= w && Spells(ts, w[|prefix|..]) {
      var t :| t in ts && SpellsIn(t, w[|prefix|..]);
      var k :| 0 <= k < |ts| && ts[k] == t;
      assert Below(prefix, ts[k], w);
    }
  }

  /** Nothing in a thing is called what the thing is. */
  lemma {:induction false} InsideIsLonger(p: Name, ts: seq<Named>)
    ensures p !in NamesFrom(p, ts, 0)
  {
    InNamesFrom(p, ts, 0, p);
    assert p[|p|..] == [];
  }

  // ---------- When they are distinct ----------

  ghost predicate SharesNone(ts: seq<Named>, i: nat)
    requires i < |ts|
  {
    forall k | i < k < |ts| :: !Shared(ts[i], ts[k])
  }

  lemma {:induction false} RestDisjoint(prefix: Name, ts: seq<Named>, i: nat)
    requires i < |ts|
    ensures Disjoint(Names(prefix, ts[i]), NamesFrom(prefix, ts, i + 1)) <==> SharesNone(ts, i)
  {
    if !Disjoint(Names(prefix, ts[i]), NamesFrom(prefix, ts, i + 1)) {
      var w :| w in Names(prefix, ts[i]) && w in NamesFrom(prefix, ts, i + 1);
      InNames(prefix, ts[i], w);
      InNamesFrom(prefix, ts, i + 1, w);
      var k :| i + 1 <= k < |ts| && Below(prefix, ts[k], w);
      assert SpellsIn(ts[i], w[|prefix|..]) && SpellsIn(ts[k], w[|prefix|..]);
      assert Shared(ts[i], ts[k]);
    }
    if !SharesNone(ts, i) {
      var k :| i < k < |ts| && Shared(ts[i], ts[k]);
      var w := CommonName(prefix, ts[i], ts[k]);
      InNames(prefix, ts[i], w);
      InNamesFrom(prefix, ts, i + 1, w);
    }
  }

  lemma {:induction false} CommonName(prefix: Name, s: Named, t: Named) returns (w: Name)
    requires Shared(s, t)
    ensures Below(prefix, s, w) && Below(prefix, t, w)
  {
    var v :| SpellsIn(s, v) && SpellsIn(t, v);
    w := prefix + v;
    assert w[|prefix|..] == v;
  }

  /** What remains to be distinct from the i-th sibling on. */
  ghost predicate ApartFrom(ts: seq<Named>, i: nat) {
    && (forall j, k | i <= j < k < |ts| :: !Shared(ts[j], ts[k]))
    && (forall k | i <= k < |ts| :: AllApart(ts[k].inside))
  }

  lemma {:induction false} ApartNext(ts: seq<Named>, i: nat)
    requires i < |ts|
    ensures ApartFrom(ts, i) <==> SharesNone(ts, i) && AllApart(ts[i].inside) && ApartFrom(ts, i + 1)
  {
  }

  lemma {:induction false} DistinctFrom(prefix: Name, ts: seq<Named>, i: nat)
    requires i <= |ts|
    ensures NoDuplicates(NamesFrom(prefix, ts, i)) <==> ApartFrom(ts, i)
    decreases ts, |ts| - i
  {
    if i < |ts| {
      DistinctIn(prefix, ts[i]);
      DistinctFrom(prefix, ts, i + 1);
      RestDisjoint(prefix, ts, i);
      ApartNext(ts, i);
      AppendDuplicates(Names(prefix, ts[i]), NamesFrom(prefix, ts, i + 1));
    }
  }

  lemma {:induction false} DistinctIn(prefix: Name, t: Named)
    ensures NoDuplicates(Names(prefix, t)) <==> AllApart(t.inside)
    decreases t, 0
  {
    var p := prefix + t.parts;
    DistinctIff(p, t.inside);
    InsideIsLonger(p, t.inside);
    AppendDuplicates([p], NamesFrom(p, t.inside, 0));
  }

  /** All full names are distinct if and only if at every level siblings are apart. */
  lemma {:induction false} DistinctIff(prefix: Name, ts: seq<Named>)
    ensures NoDuplicates(NamesFrom(prefix, ts, 0)) <==> AllApart(ts)
    decreases ts, |ts| + 1
  {
    DistinctFrom(prefix, ts, 0);
    ApartIff(ts);
  }

  lemma {:induction false} ApartIff(ts: seq<Named>)
    ensures AllApart(ts) <==> ApartFrom(ts, 0)
  {
    forall i, j | 0 <= i < j < |ts| ensures Shared(ts[i], ts[j]) <==> !Apart(ts[i], ts[j]) {
      SharedIff(ts[i], ts[j]);
    }
  }
}
