/** The report's rare cross-package connections: `reportSurprisingConnectionsDetailed` of cmd/pinch/report.go.
    Two maps filled in edge order, an unordered range, a sort and a cut: the rows still depend on nothing but
    which edges there are. */
module Connections {
  import opened Collections
  import Sorting
  import Text

  /** The five fields of an edge the report compares and shows. */
  datatype Shown = Shown(from: string, to: string, kind: string, source: string, confidence: real)

  /** A database edge: what is shown, and the rest (id, properties, branch and so on). */
  datatype Edge = Edge(shown: Shown, rest: int)

  datatype Pair = Pair(from: string, to: string)

  datatype Boundary = TestProd | ExternalDependency | CliInternal | Automation | CrossPackage

  /** The path tests the triage uses, and how an id's package is found. */
  datatype Paths = Paths(package: string -> string, root: string -> string, testFile: string -> bool,
                         mentionsTests: string -> bool, external: string -> bool, script: string -> bool)

  datatype Row = Row(pair: Pair, count: nat, example: Shown, boundary: Boundary)

  function PairOf(paths: Paths, e: Shown): Pair { Pair(paths.package(e.from), paths.package(e.to)) }

  /** The edge joins two different known packages. */
  predicate Crosses(paths: Paths, e: Shown) {
    var p := PairOf(paths, e);
    p.from != "" && p.to != "" && p.from != p.to
  }

  predicate Joins(paths: Paths, e: Shown, p: Pair) { Crosses(paths, e) && PairOf(paths, e) == p }

  /** classifyPackageConnection: the first boundary that applies. Reason and advice follow from it. */
  function Classify(paths: Paths, p: Pair, e: Shown): Boundary {
    if paths.mentionsTests(p.from) || paths.mentionsTests(p.to)
       || paths.testFile(e.from) || paths.testFile(e.to) then TestProd
    else if paths.external(p.from) || paths.external(p.to) then ExternalDependency
    else if (paths.root(p.from) == "cmd" && paths.root(p.to) == "internal") ||
            (paths.root(p.from) == "internal" && paths.root(p.to) == "cmd") then CliInternal
    else if paths.script(p.from) || paths.script(p.to) then Automation
    else CrossPackage
  }

  // ---------- The two orders ----------

  /** reportEdgeLess. */
  predicate EdgeLess(a: Shown, b: Shown) {
    if a.from != b.from then Text.Less(a.from, b.from)
    else if a.to != b.to then Text.Less(a.to, b.to)
    else if a.kind != b.kind then Text.Less(a.kind, b.kind)
    else if a.source != b.source then Text.Less(a.source, b.source)
    else a.confidence < b.confidence
  }

  lemma {:induction false} TextOrder(a: string, b: string, c: string)
    ensures !Text.Less(a, a)
    ensures Text.Less(a, b) && Text.Less(b, c) ==> Text.Less(a, c)
    ensures Text.Less(a, b) || a == b || Text.Less(b, a)
  {
    Text.LessIrreflexive(a);
    Text.LessTotal(a, b);
    if Text.Less(a, b) && Text.Less(b, c) {
      Text.LessTransitive(a, b, c);
    }
  }

  /** The order on edges is a strict total order on the five shown fields. */
  lemma {:induction false} EdgeLessIsOrder()
    ensures Sorting.StrictTotalOrder(EdgeLess)
  {
    forall x: Shown, y: Shown, z: Shown
      ensures EdgeLess(x, y) && EdgeLess(y, z) ==> EdgeLess(x, z)
      ensures EdgeLess(x, y) || x == y || EdgeLess(y, x)
    {
      TextOrder(x.from, y.from, z.from);
      TextOrder(x.to, y.to, z.to);
      TextOrder(x.kind, y.kind, z.kind);
      TextOrder(x.source, y.source, z.source);
      TextOrder(x.from, y.from, x.from);
      TextOrder(x.to, y.to, x.to);
      TextOrder(x.kind, y.kind, x.kind);
      TextOrder(x.source, y.source, x.source);
    }
  }

  /** A pair with its edge count, as sortedPackagePairs compares them: rarest first. */
  datatype Ranked = Ranked(count: nat, pair: Pair)

  predicate RankLess(a: Ranked, b: Ranked) {
    if a.count != b.count then a.count < b.count
    else if a.pair.from != b.pair.from then Text.Less(a.pair.from, b.pair.from)
    else Text.Less(a.pair.to, b.pair.to)
  }

  lemma {:induction false} RankLessIsOrder()
    ensures Sorting.StrictTotalOrder(RankLess)
  {
    forall x: Ranked, y: Ranked, z: Ranked
      ensures RankLess(x, y) && RankLess(y, z) ==> RankLess(x, z)
      ensures RankLess(x, y) || x == y || RankLess(y, x)
    {
      TextOrder(x.pair.from, y.pair.from, z.pair.from);
      TextOrder(x.pair.to, y.pair.to, z.pair.to);
      TextOrder(x.pair.from, y.pair.from, x.pair.from);
    }
    forall x: Ranked ensures !RankLess(x, x) {
      Text.LessIrreflexive(x.pair.to);
    }
  }

  // ---------- What the rows are ----------

  /** The pair each edge joins, if any. */
  function Joined(paths: Paths, s: seq<Shown>): (pairs: seq<Option<Pair>>)
    ensures |pairs| == |s|
    ensures forall i | 0 <= i < |s| :: pairs[i] == if Crosses(paths, s[i]) then Some(PairOf(paths, s[i])) else None
  {
    seq(|s|, i requires 0 <= i < |s| => if Crosses(paths, s[i]) then Some(PairOf(paths, s[i])) else None)
  }

  /** How many of these edges join the pair. */
  function Joining(paths: Paths, s: seq<Shown>, p: Pair): nat { Count(Joined(paths, s), Some(p), |s|) }

  /** e is the least edge that joins the pair. */
  ghost predicate IsExample(paths: Paths, s: seq<Shown>, p: Pair, e: Shown) {
    e in s && Joins(paths, e, p) && forall o | o in s && Joins(paths, o, p) :: o == e || EdgeLess(e, o)
  }

  /** All joined pairs, rarest first. */
  ghost predicate Ranking(paths: Paths, s: seq<Shown>, ranks: seq<Ranked>) {
    && Sorting.StrictlySorted(RankLess, ranks)
    && forall r :: r in ranks <==> r.count == Joining(paths, s, r.pair) && exists e :: e in s && Joins(paths, e, r.pair)
  }

  function Kept(limit: int, n: nat): nat { if limit > 0 && n > limit then limit else n }

  /** The rows of the report over these edges: the first `limit` pairs of the ranking (all of them when the
      limit is not positive), each with its count, its least edge and that edge's boundary. */
  ghost predicate IsReport(paths: Paths, s: seq<Shown>, limit: int, rows: seq<Row>) {
    exists ranks: seq<Ranked> :: Ranking(paths, s, ranks) && Follows(paths, s, limit, ranks, rows)
  }

  ghost predicate Follows(paths: Paths, s: seq<Shown>, limit: int, ranks: seq<Ranked>, rows: seq<Row>) {
    && |rows| == Kept(limit, |ranks|)
    && forall i | 0 <= i < |rows| :: RowFor(paths, s, ranks[i], rows[i])
  }

  ghost predicate RowFor(paths: Paths, s: seq<Shown>, rank: Ranked, row: Row) {
    && row.pair == rank.pair && row.count == rank.count
    && IsExample(paths, s, row.pair, row.example)
    && row.boundary == Classify(paths, row.pair, row.example)
  }

  // ---------- What the rows mean ----------

  /** One more edge counts for a pair if and only if it leads from the one package to the other, both known and
      different. */
  lemma {:induction false} JoiningForms(paths: Paths, s: seq<Shown>, e: Shown, p: Pair)
    ensures Joining(paths, [], p) == 0
    ensures Joining(paths, s + [e], p) == Joining(paths, s, p) +
            if && paths.package(e.from) == p.from && paths.package(e.to) == p.to
               && p.from != "" && p.to != "" && p.from != p.to then 1 else 0
  {
    CountStep(paths, s, e, p);
  }

  /** The boundary: tests first, then outside packages, then cmd with internal, then scripts. */
  lemma {:induction false} BoundaryIff(paths: Paths, p: Pair, e: Shown)
    ensures var tests := paths.mentionsTests(p.from) || paths.mentionsTests(p.to) ||
                         paths.testFile(e.from) || paths.testFile(e.to);
            var outside := paths.external(p.from) || paths.external(p.to);
            var cli := {paths.root(p.from), paths.root(p.to)} == {"cmd", "internal"};
            var scripts := paths.script(p.from) || paths.script(p.to);
            && (Classify(paths, p, e) == TestProd <==> tests)
            && (Classify(paths, p, e) == ExternalDependency <==> !tests && outside)
            && (Classify(paths, p, e) == CliInternal <==> !tests && !outside && cli)
            && (Classify(paths, p, e) == Automation <==> !tests && !outside && !cli && scripts)
            && (Classify(paths, p, e) == CrossPackage <==> !tests && !outside && !cli && !scripts)
  {
    CliPair(paths.root(p.from), paths.root(p.to));
  }

  lemma {:induction false} CliPair(a: string, b: string)
    ensures {a, b} == {"cmd", "internal"} <==> (a == "cmd" && b == "internal") || (a == "internal" && b == "cmd")
  {
    if {a, b} == {"cmd", "internal"} {
      assert a in {"cmd", "internal"} && b in {"cmd", "internal"} && "cmd" in {a, b} && "internal" in {a, b};
      assert "cmd"[0] != "internal"[0];
    }
  }

  /** Rarest first, and among equally rare pairs by the names of the packages. */
  ghost predicate RanksBefore(a: Row, b: Row) {
    || a.count < b.count
    || (a.count == b.count && Text.Less(a.pair.from, b.pair.from))
    || (a.count == b.count && a.pair.from == b.pair.from && Text.Less(a.pair.to, b.pair.to))
  }

  /** The row's packages are known and different, it counts their edges, and its example is the least of them: by ids,
      then kind, source and confidence. */
  ghost predicate RowMeans(paths: Paths, s: seq<Shown>, row: Row) {
    && row.pair.from != "" && row.pair.to != "" && row.pair.from != row.pair.to
    && row.count == Joining(paths, s, row.pair)
    && row.example in s
    && paths.package(row.example.from) == row.pair.from && paths.package(row.example.to) == row.pair.to
    && (forall e | e in s && paths.package(e.from) == row.pair.from && paths.package(e.to) == row.pair.to ::
          var x := row.example;
          || x == e || Text.Less(x.from, e.from)
          || (x.from == e.from && Text.Less(x.to, e.to))
          || (x.from == e.from && x.to == e.to && Text.Less(x.kind, e.kind))
          || (x.from == e.from && x.to == e.to && x.kind == e.kind && Text.Less(x.source, e.source))
          || (x.from == e.from && x.to == e.to && x.kind == e.kind && x.source == e.source
              && x.confidence < e.confidence))
    && row.boundary == Classify(paths, row.pair, row.example)
  }

  /** The edge joins two known and different packages that some row is for. */
  ghost predicate HasRow(paths: Paths, rows: seq<Row>, e: Shown) {
    exists row :: row in rows && row.pair == Pair(paths.package(e.from), paths.package(e.to))
  }

  /** A report, edge by edge and row by row. Rows come rarest first. Without a positive limit, or while the limit is not
      reached, every edge between two packages has a row; and when it is reached, an edge without a row belongs to a
      pair that is no rarer than any shown. */
  lemma {:induction false} ReportMeans(paths: Paths, s: seq<Shown>, limit: int, rows: seq<Row>)
    requires IsReport(paths, s, limit, rows)
    ensures forall i, j | 0 <= i < j < |rows| :: RanksBefore(rows[i], rows[j])
    ensures forall row | row in rows :: RowMeans(paths, s, row)
    ensures limit > 0 ==> |rows| <= limit
    ensures forall e | e in s && paths.package(e.from) != "" && paths.package(e.to) != "" &&
                       paths.package(e.from) != paths.package(e.to) && !HasRow(paths, rows, e) ::
              limit > 0 && |rows| == limit &&
              forall row | row in rows ::
                row.count <= Joining(paths, s, Pair(paths.package(e.from), paths.package(e.to)))
  {
    var ranks: seq<Ranked> :| Ranking(paths, s, ranks) && Follows(paths, s, limit, ranks, rows);
    forall i, j | 0 <= i < j < |rows| ensures RanksBefore(rows[i], rows[j]) {
      assert RowFor(paths, s, ranks[i], rows[i]) && RowFor(paths, s, ranks[j], rows[j]);
      assert RankLess(ranks[i], ranks[j]);
    }
    forall row | row in rows ensures RowMeans(paths, s, row) {
      var i :| 0 <= i < |rows| && rows[i] == row;
      assert RowFor(paths, s, ranks[i], rows[i]) && ranks[i] in ranks;
      RowIsMeant(paths, s, ranks[i], row);
    }
    forall e | e in s && Crosses(paths, e) && !HasRow(paths, rows, e)
      ensures limit > 0 && |rows| == limit &&
              forall row | row in rows :: row.count <= Joining(paths, s, PairOf(paths, e))
    {
      Unshown(paths, s, limit, ranks, rows, e);
    }
  }

  lemma {:induction false} RowIsMeant(paths: Paths, s: seq<Shown>, rank: Ranked, row: Row)
    requires RowFor(paths, s, rank, row) && rank.count == Joining(paths, s, rank.pair)
    ensures RowMeans(paths, s, row)
  {
    forall e | e in s && paths.package(e.from) == row.pair.from && paths.package(e.to) == row.pair.to
      ensures row.example == e || EdgeLess(row.example, e)
    {
      assert Joins(paths, e, row.pair);
    }
  }

  lemma {:induction false} Unshown(paths: Paths, s: seq<Shown>, limit: int, ranks: seq<Ranked>, rows: seq<Row>,
                                   e: Shown)
    requires Ranking(paths, s, ranks) && Follows(paths, s, limit, ranks, rows)
    requires e in s && Crosses(paths, e) && !HasRow(paths, rows, e)
    ensures limit > 0 && |rows| == limit
    ensures forall row | row in rows :: row.count <= Joining(paths, s, PairOf(paths, e))
  {
    var r := Ranked(Joining(paths, s, PairOf(paths, e)), PairOf(paths, e));
    assert Joins(paths, e, r.pair);
    var k :| 0 <= k < |ranks| && ranks[k] == r;
    forall i | 0 <= i < |rows| ensures rows[i].pair != r.pair && RowFor(paths, s, ranks[i], rows[i]) {
      assert rows[i] in rows;
    }
    forall row | row in rows ensures row.count <= r.count {
      var i :| 0 <= i < |rows| && rows[i] == row;
      assert RowFor(paths, s, ranks[i], rows[i]) && RankLess(ranks[i], ranks[k]);
    }
  }

  // ---------- The rows do not depend on the order of the edges ----------

  ghost function Without<T>(s: seq<T>, k: nat): seq<T>
    requires k < |s|
  {
    s[..k] + s[k + 1..]
  }

  lemma {:induction false} RemoveAt<T>(s: seq<T>, k: nat)
    requires k < |s|
    ensures multiset(Without(s, k)) == multiset(s) - multiset{s[k]}
    ensures multiset(s) == multiset(Without(s, k)) + multiset{s[k]}
  {
    var a, x, b := s[..k], s[k], s[k + 1..];
    assert s == a + [x] + b;
    assert multiset(a + [x] + b) == multiset(a) + multiset{x} + multiset(b);
    assert multiset(a + b) == multiset(a) + multiset(b);
  }

  /** The first element of one list, found in a permutation of it. */
  lemma {:induction false} FindFirst(s: seq<Shown>, t: seq<Shown>) returns (k: nat)
    requires s != [] && multiset(s) == multiset(t)
    ensures k < |t| && t[k] == s[0] && multiset(Without(s, 0)) == multiset(Without(t, k))
  {
    SameMembers(s, t);
    assert s[0] in s;
    k :| 0 <= k < |t| && t[k] == s[0];
    RemoveAt(s, 0);
    RemoveAt(t, k);
  }

  lemma {:induction false} JoinedPermutes(paths: Paths, s: seq<Shown>, t: seq<Shown>)
    requires multiset(s) == multiset(t)
    ensures multiset(Joined(paths, s)) == multiset(Joined(paths, t))
    decreases |s|
  {
    if s == [] {
      assert |t| == |multiset(t)| == 0;
      assert Joined(paths, s) == Joined(paths, t);
    } else {
      var k := FindFirst(s, t);
      JoinedPermutes(paths, Without(s, 0), Without(t, k));
      JoinedRemove(paths, s, 0);
      JoinedRemove(paths, t, k);
    }
  }

  lemma {:induction false} JoinedRemove(paths: Paths, s: seq<Shown>, k: nat)
    requires k < |s|
    ensures multiset(Joined(paths, s)) == multiset(Joined(paths, Without(s, k))) + multiset{Joined(paths, s)[k]}
  {
    var pairs := Joined(paths, s);
    RemoveAt(pairs, k);
    assert Joined(paths, Without(s, k)) == Without(pairs, k);
  }

  lemma {:induction false} CountPermutes(paths: Paths, s: seq<Shown>, t: seq<Shown>, p: Pair)
    requires multiset(s) == multiset(t)
    ensures Joining(paths, s, p) == Joining(paths, t, p)
  {
    JoinedPermutes(paths, s, t);
    CountIsMultiplicity(Joined(paths, s), Some(p));
    CountIsMultiplicity(Joined(paths, t), Some(p));
  }

  lemma {:induction false} SameMembers(s: seq<Shown>, t: seq<Shown>)
    requires multiset(s) == multiset(t)
    ensures forall e :: e in s <==> e in t
  {
    forall e ensures e in s <==> e in t {
      assert e in s <==> e in multiset(s);
      assert e in t <==> e in multiset(t);
    }
  }

  lemma {:induction false} ExampleUnique(paths: Paths, s: seq<Shown>, p: Pair, d: Shown, e: Shown)
    requires IsExample(paths, s, p, d) && IsExample(paths, s, p, e)
    ensures d == e
  {
    EdgeLessIsOrder();
  }

  /** Reports over permutations of one edge list are the same, row by row. */
  lemma {:induction false} ReportIgnoresOrder(paths: Paths, s: seq<Shown>, t: seq<Shown>, limit: int, rows: seq<Row>,
                                              rows': seq<Row>)
    requires multiset(s) == multiset(t)
    requires IsReport(paths, s, limit, rows) && IsReport(paths, t, limit, rows')
    ensures rows == rows'
  {
    var a: seq<Ranked> :| Ranking(paths, s, a) && Follows(paths, s, limit, a, rows);
    var b: seq<Ranked> :| Ranking(paths, t, b) && Follows(paths, t, limit, b, rows');
    SameMembers(s, t);
    forall r: Ranked ensures r in a <==> r in b {
      CountPermutes(paths, s, t, r.pair);
    }
    RankLessIsOrder();
    Sorting.SortedUnique(RankLess, a, b);
    forall i | 0 <= i < |rows| ensures rows[i] == rows'[i] {
      assert RowFor(paths, s, a[i], rows[i]) && RowFor(paths, t, a[i], rows'[i]);
      ExampleUnique(paths, s, rows[i].pair, rows[i].example, rows'[i].example);
    }
  }

  // ---------- The code ----------

  function Shows(edges: seq<Edge>): (s: seq<Shown>)
    ensures |s| == |edges| && forall i | 0 <= i < |s| :: s[i] == edges[i].shown
  {
    seq(|edges|, i requires 0 <= i < |edges| => edges[i].shown)
  }

  /** The loop that fills `counts` and `examples`. */
  method Collect(paths: Paths, edges: seq<Edge>) returns (counts: map<Pair, nat>, examples: map<Pair, Edge>)
    ensures Collected(paths, Shows(edges), counts, examples)
  {
    counts, examples := map[], map[];
    for i := 0 to |edges|
      invariant Collected(paths, Shows(edges)[..i], counts, examples)
    {
      var e := edges[i];
      ghost var s := Shows(edges)[..i];
      assert Shows(edges)[..i + 1] == s + [e.shown];
      if Crosses(paths, e.shown) {
        var pair := PairOf(paths, e.shown);
        CollectJoins(paths, s, e, counts, examples, pair);
        counts := counts[pair := Tally(counts, pair) + 1];
        if pair !in examples || EdgeLess(e.shown, examples[pair].shown) {
          examples := examples[pair := e];
        }
      } else {
        CollectSkips(paths, s, e.shown, counts, examples);
      }
    }
    assert Shows(edges)[..|edges|] == Shows(edges);
  }

  /** Each pair in the map has its number of edges, and each joined pair is in the map. */
  ghost predicate Counted(paths: Paths, s: seq<Shown>, counts: map<Pair, nat>) {
    && (forall p | p in counts :: counts[p] == Joining(paths, s, p))
    && (forall e | e in s && Crosses(paths, e) :: PairOf(paths, e) in counts)
  }

  /** Each pair in the map has its least edge. */
  ghost predicate Exemplified(paths: Paths, s: seq<Shown>, examples: map<Pair, Edge>) {
    forall p | p in examples :: IsExample(paths, s, p, examples[p].shown)
  }

  ghost predicate Collected(paths: Paths, s: seq<Shown>, counts: map<Pair, nat>, examples: map<Pair, Edge>) {
    counts.Keys == examples.Keys && Counted(paths, s, counts) && Exemplified(paths, s, examples)
  }

  lemma {:induction false} CountStep(paths: Paths, s: seq<Shown>, e: Shown, p: Pair)
    ensures Joining(paths, s + [e], p) == Joining(paths, s, p) + if Joins(paths, e, p) then 1 else 0
  {
    var pairs, grown := Joined(paths, s), Joined(paths, s + [e]);
    assert grown[..|s|] == pairs[..|s|];
    CountPrefix(grown, pairs, Some(p), |s|);
  }

  lemma {:induction false} CountOfAbsent(paths: Paths, s: seq<Shown>, p: Pair)
    requires forall e | e in s :: !Joins(paths, e, p)
    ensures Joining(paths, s, p) == 0
  {
    CountPositive(Joined(paths, s), Some(p), |s|);
    assert forall i | 0 <= i < |s| :: !Joins(paths, s[i], p);
  }

  /** The kept example stays the least one. */
  lemma {:induction false} ExampleStep(paths: Paths, s: seq<Shown>, e: Shown, p: Pair, kept: Shown)
    requires IsExample(paths, s, p, kept)
    ensures IsExample(paths, s + [e], p, if Joins(paths, e, p) && EdgeLess(e, kept) then e else kept)
  {
    EdgeLessIsOrder();
  }

  /** An edge that joins no pair changes nothing. */
  lemma {:induction false} CollectSkips(paths: Paths, s: seq<Shown>, e: Shown, counts: map<Pair, nat>,
                                        examples: map<Pair, Edge>)
    requires Collected(paths, s, counts, examples) && !Crosses(paths, e)
    ensures Collected(paths, s + [e], counts, examples)
  {
    forall p | p in counts
      ensures counts[p] == Joining(paths, s + [e], p) && IsExample(paths, s + [e], p, examples[p].shown)
    {
      CountStep(paths, s, e, p);
      ExampleStep(paths, s, e, p, examples[p].shown);
    }
  }

  /** An edge that joins a pair is counted. */
  lemma {:induction false} CountJoins(paths: Paths, s: seq<Shown>, e: Shown, counts: map<Pair, nat>, pair: Pair)
    requires Counted(paths, s, counts) && Joins(paths, e, pair)
    ensures Counted(paths, s + [e], counts[pair := Tally(counts, pair) + 1])
  {
    var counts' := counts[pair := Tally(counts, pair) + 1];
    forall p | p in counts' ensures counts'[p] == Joining(paths, s + [e], p) {
      CountStep(paths, s, e, p);
      if p !in counts {
        CountOfAbsent(paths, s, p);
      }
    }
  }

  /** And it may become the pair's example. */
  lemma {:induction false} ExampleJoins(paths: Paths, s: seq<Shown>, e: Edge, examples: map<Pair, Edge>, pair: Pair)
    requires Exemplified(paths, s, examples) && Joins(paths, e.shown, pair)
    requires pair !in examples ==> forall o | o in s :: !Joins(paths, o, pair)
    ensures Exemplified(paths, s + [e.shown], WithExample(examples, pair, e))
  {
    var examples' := WithExample(examples, pair, e);
    forall p | p in examples' ensures IsExample(paths, s + [e.shown], p, examples'[p].shown) {
      if p in examples {
        ExampleStep(paths, s, e.shown, p, examples[p].shown);
      } else {
        FirstExample(paths, s, e.shown, p);
      }
    }
  }

  lemma {:induction false} CollectJoins(paths: Paths, s: seq<Shown>, e: Edge, counts: map<Pair, nat>,
                                        examples: map<Pair, Edge>, pair: Pair)
    requires Collected(paths, s, counts, examples) && Joins(paths, e.shown, pair)
    ensures Collected(paths, s + [e.shown], counts[pair := Tally(counts, pair) + 1], WithExample(examples, pair, e))
  {
    CountJoins(paths, s, e.shown, counts, pair);
    ExampleJoins(paths, s, e, examples, pair);
  }

  /** The examples once an edge of the pair has been looked at: the lesser of it and the one kept. */
  function WithExample(examples: map<Pair, Edge>, pair: Pair, e: Edge): (r: map<Pair, Edge>)
    ensures r.Keys == examples.Keys + {pair}
  {
    if pair !in examples || EdgeLess(e.shown, examples[pair].shown) then examples[pair := e] else examples
  }

  lemma {:induction false} FirstExample(paths: Paths, s: seq<Shown>, e: Shown, p: Pair)
    requires Joins(paths, e, p) && forall o | o in s :: !Joins(paths, o, p)
    ensures IsExample(paths, s + [e], p, e)
  {
  }

  /** reportSurprisingConnectionsDetailed. */
  method SurprisingConnections(paths: Paths, edges: seq<Edge>, limit: int) returns (rows: seq<Row>)
    ensures IsReport(paths, Shows(edges), limit, rows)
    ensures forall i, j | 0 <= i < j < |rows| :: RanksBefore(rows[i], rows[j])
    ensures forall row | row in rows :: RowMeans(paths, Shows(edges), row)
    ensures limit > 0 ==> |rows| <= limit
    ensures forall e | e in Shows(edges) && paths.package(e.from) != "" && paths.package(e.to) != "" &&
                       paths.package(e.from) != paths.package(e.to) && !HasRow(paths, rows, e) ::
              limit > 0 && |rows| == limit &&
              forall row | row in rows ::
                row.count <= Joining(paths, Shows(edges), Pair(paths.package(e.from), paths.package(e.to)))
  {
    var counts, examples := Collect(paths, edges);
    RankLessIsOrder();
    var ranks := Sorting.SortedElements(RankLess, set p | p in counts :: Ranked(counts[p], p));
    RankingFound(paths, Shows(edges), counts, examples, ranks);
    rows := RenderRows(paths, Shows(edges), counts, examples, ranks, limit);
    ReportMeans(paths, Shows(edges), limit, rows);
  }

  /** The loop over the ranked pairs. */
  method RenderRows(paths: Paths, ghost s: seq<Shown>, counts: map<Pair, nat>, examples: map<Pair, Edge>,
                    ranks: seq<Ranked>, limit: int)
    returns (rows: seq<Row>)
    requires counts.Keys == examples.Keys && Exemplified(paths, s, examples)
    requires forall r | r in ranks :: r.pair in counts && counts[r.pair] == r.count
    ensures Follows(paths, s, limit, ranks, rows)
  {
    rows := [];
    for i := 0 to Kept(limit, |ranks|)
      invariant |rows| == i
      invariant forall k | 0 <= k < i :: RowFor(paths, s, ranks[k], rows[k])
    {
      assert ranks[i] in ranks;
      var pair := ranks[i].pair;
      var example := examples[pair].shown;
      var row := Row(pair, counts[pair], example, Classify(paths, pair, example));
      assert RowFor(paths, s, ranks[i], row);
      rows := rows + [row];
    }
  }

  lemma {:induction false} RankingFound(paths: Paths, s: seq<Shown>, counts: map<Pair, nat>,
                                        examples: map<Pair, Edge>, ranks: seq<Ranked>)
    requires Collected(paths, s, counts, examples)
    requires Sorting.StrictlySorted(RankLess, ranks)
    requires Sorting.Enumerates(ranks, set p | p in counts :: Ranked(counts[p], p))
    ensures Ranking(paths, s, ranks)
    ensures forall r | r in ranks :: r.pair in counts && counts[r.pair] == r.count
  {
    forall r: Ranked
      ensures r in ranks <==> r.count == Joining(paths, s, r.pair) && exists e :: e in s && Joins(paths, e, r.pair)
    {
      if r.pair in counts {
        assert examples[r.pair].shown in s && Joins(paths, examples[r.pair].shown, r.pair);
      }
    }
  }
}
