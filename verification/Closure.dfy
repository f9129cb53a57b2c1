/** The depth-bounded transitive closure of cmd/closurebench/main.go: breadth-first search from
    every source, one row per pair, each carrying the length of a shortest walk. */
module Closure {
  import opened Graph

  datatype Row = Row(from: Id, to: Id, depth: int)
  type Adjacency = map<Id, seq<Id>>

  /** adj[u], which is empty for a node without an entry. */
  function Successors(adj: Adjacency, u: Id): seq<Id> {
    if u in adj then adj[u] else []
  }

  function ArrowsOf(adj: Adjacency): Arrows {
    set u, v | u in adj && v in adj[u] :: (u, v)
  }

  lemma {:induction false} ArrowsAre(adj: Adjacency, u: Id, v: Id)
    ensures (u, v) in ArrowsOf(adj) <==> u in adj && v in adj[u]
  {
  }

  /** The rows a complete table holds. */
  ghost predicate InClosure(adj: Adjacency, maxDepth: int, r: Row) {
    && r.from in adj && r.to != r.from && 1 <= r.depth <= maxDepth
    && ShortestWalk(ArrowsOf(adj), r.from, r.to, r.depth)
  }

  /** The side database's closure table, keyed by (from, to). */
  class Table {
    var rows: seq<Row>
    var executed: nat  // how many INSERT OR IGNORE statements ran

    constructor ()
      ensures rows == [] && executed == 0
    {
      rows, executed := [], 0;
    }

    /** No two rows share a key. */
    ghost predicate Keyed()
      reads this
    {
      forall i, j | 0 <= i < j < |rows| :: !(rows[i].from == rows[j].from && rows[i].to == rows[j].to)
    }

    method InsertOrIgnore(r: Row)
      requires Keyed()
      modifies this
      ensures Keyed() && executed == old(executed) + 1
      ensures rows == if exists o :: o in old(rows) && o.from == r.from && o.to == r.to
                      then old(rows) else old(rows) + [r]
    {
      executed := executed + 1;
      if !exists o :: o in rows && o.from == r.from && o.to == r.to {
        rows := rows + [r];
      }
    }
  }

  /** The innermost loop: visit the successors of one frontier node at depth d. */
  method Expand(t: Table, from: Id, vs: seq<Id>, d: int, seen: map<Id, int>, next: seq<Id>)
    returns (seen': map<Id, int>, next': seq<Id>)
    requires t.Keyed() && |t.rows| == t.executed
    requires forall r | r in t.rows && r.from == from :: r.to in seen
    modifies t
    ensures t.Keyed() && |t.rows| == t.executed
    ensures forall v :: v in seen' <==> v in seen || v in vs
    ensures forall v | v in seen' :: seen'[v] == if v in seen then seen[v] else d
    ensures forall v :: v in next' <==> v in next || (v in vs && v !in seen)
    ensures forall r :: r in t.rows <==> r in old(t.rows) || (r == Row(from, r.to, d) && r.to in vs && r.to !in seen)
  {
    seen', next' := seen, next;
    for j := 0 to |vs|
      invariant t.Keyed() && |t.rows| == t.executed
      invariant forall v :: v in seen' <==> v in seen || v in vs[..j]
      invariant forall v | v in seen' :: seen'[v] == if v in seen then seen[v] else d
      invariant forall v :: v in next' <==> v in next || (v in vs[..j] && v !in seen)
      invariant forall r :: r in t.rows <==>
        r in old(t.rows) || (r == Row(from, r.to, d) && r.to in vs[..j] && r.to !in seen)
    {
      var v := vs[j];
      assert vs[..j + 1] == vs[..j] + [v];
      if v !in seen' {
        seen' := seen'[v := d];
        next' := next' + [v];
        t.InsertOrIgnore(Row(from, v, d));
      }
    }
    assert vs[..|vs|] == vs;
  }

  /** `seen` records, for exactly the nodes of the ball of radius d, their distances. */
  ghost predicate Measured(adj: Adjacency, from: Id, d: nat, seen: map<Id, int>) {
    && seen.Keys == Ball(ArrowsOf(adj), from, d)
    && forall v | v in seen :: 0 <= seen[v] <= d && ShortestWalk(ArrowsOf(adj), from, v, seen[v])
  }

  /** Only the frontier still has unseen successors. */
  ghost predicate Settled(adj: Adjacency, seen: set<Id>, frontier: seq<Id>) {
    && (forall u | u in frontier :: u in seen)
    && (forall u, v | u in seen && u !in frontier && v in Successors(adj, u) :: v in seen)
  }

  /** One round of the search: the ball of radius d - 1 becomes the ball of radius d. */
  method Round(t: Table, adj: Adjacency, from: Id, d: nat, seen: map<Id, int>, frontier: seq<Id>)
    returns (seen': map<Id, int>, next: seq<Id>)
    requires d > 0 && Measured(adj, from, d - 1, seen) && Settled(adj, seen.Keys, frontier)
    requires t.Keyed() && |t.rows| == t.executed
    requires forall r | r in t.rows && r.from == from :: r.to in seen
    modifies t
    ensures t.Keyed() && |t.rows| == t.executed
    ensures Measured(adj, from, d, seen') && Settled(adj, seen'.Keys, next)
    ensures forall v | v in seen :: v in seen' && seen'[v] == seen[v]
    ensures forall v | v in seen' && v !in seen :: seen'[v] == d
    ensures forall r :: r in t.rows <==> r in old(t.rows) || (r == Row(from, r.to, d) && r.to in seen' && r.to !in seen)
  {
    seen', next := seen, [];
    for i := 0 to |frontier|
      invariant t.Keyed() && |t.rows| == t.executed
      invariant forall v | v in seen :: v in seen' && seen'[v] == seen[v]
      invariant forall v | v in seen' && v !in seen :: seen'[v] == d && v in Step(ArrowsOf(adj), seen.Keys)
      invariant forall v :: v in next <==> v in seen' && v !in seen
      invariant forall u, v | u in frontier[..i] && v in Successors(adj, u) :: v in seen'
      invariant forall r :: r in t.rows <==>
                  r in old(t.rows) || (r == Row(from, r.to, d) && r.to in seen' && r.to !in seen)
    {
      var u := frontier[i];
      assert frontier[..i + 1] == frontier[..i] + [u];
      SuccessorsAreSteps(adj, u, seen.Keys);
      seen', next := Expand(t, from, Successors(adj, u), d, seen', next);
    }
    assert frontier[..|frontier|] == frontier;
    RoundReachesBall(adj, from, d, seen.Keys, frontier, seen'.Keys);
    forall v | v in seen' && v !in seen
      ensures ShortestWalk(ArrowsOf(adj), from, v, d)
    {
      LayerIsDistance(ArrowsOf(adj), from, v, d);
    }
  }

  lemma {:induction false} SuccessorsAreSteps(adj: Adjacency, u: Id, seen: set<Id>)
    requires u in seen
    ensures forall v | v in Successors(adj, u) :: v in Step(ArrowsOf(adj), seen)
  {
    forall v | v in Successors(adj, u) ensures v in Step(ArrowsOf(adj), seen) {
      assert u in adj && v in adj[u];
      assert (u, v) in ArrowsOf(adj);
    }
  }

  lemma {:induction false} RoundReachesBall(adj: Adjacency, from: Id, d: nat, seen: set<Id>, frontier: seq<Id>,
                                            seen': set<Id>)
    requires d > 0 && seen == Ball(ArrowsOf(adj), from, d - 1) && Settled(adj, seen, frontier)
    requires seen <= seen' <= seen + Step(ArrowsOf(adj), seen)
    requires forall u, v | u in frontier && v in Successors(adj, u) :: v in seen'
    ensures seen' == Ball(ArrowsOf(adj), from, d)
  {
    forall v | v in Step(ArrowsOf(adj), seen)
      ensures v in seen'
    {
      var e :| e in ArrowsOf(adj) && e.0 in seen && e.1 == v;
      assert v in Successors(adj, e.0);
    }
  }

  /** The table grew by one row for each node of `seen` other than the source. */
  ghost predicate Recorded(rows: seq<Row>, before: seq<Row>, from: Id, seen: map<Id, int>) {
    forall r :: r in rows <==> r in before || (r.from == from && r.to in seen && seen[r.to] == r.depth > 0)
  }

  /** The search from one source. */
  method Search(t: Table, adj: Adjacency, from: Id, maxDepth: int)
    requires from in adj
    requires t.Keyed() && |t.rows| == t.executed
    requires forall r | r in t.rows :: r.from != from
    modifies t
    ensures t.Keyed() && |t.rows| == t.executed
    ensures forall r :: r in t.rows <==> r in old(t.rows) || (r.from == from && InClosure(adj, maxDepth, r))
  {
    var seen: map<Id, int> := map[from := 0];
    var frontier := [from];
    var d := 1;
    LayerIsDistance(ArrowsOf(adj), from, from, 0);
    while d <= maxDepth && |frontier| > 0
      invariant 1 <= d && (d == 1 || d <= maxDepth + 1)
      invariant Measured(adj, from, d - 1, seen) && Settled(adj, seen.Keys, frontier)
      invariant t.Keyed() && |t.rows| == t.executed
      invariant Recorded(t.rows, old(t.rows), from, seen)
      decreases maxDepth - d
    {
      seen, frontier := Round(t, adj, from, d, seen, frontier);
      d := d + 1;
    }
    SearchIsComplete(adj, maxDepth, d, seen, frontier, from, t.rows, old(t.rows));
  }

  lemma {:induction false} SearchIsComplete(adj: Adjacency, maxDepth: int, d: nat, seen: map<Id, int>,
                                            frontier: seq<Id>, from: Id, rows: seq<Row>, before: seq<Row>)
    requires from in adj && d > 0 && Measured(adj, from, d - 1, seen) && Settled(adj, seen.Keys, frontier)
    requires d == 1 || d <= maxDepth + 1
    requires d <= maxDepth ==> frontier == []
    requires Recorded(rows, before, from, seen)
    ensures forall r :: r in rows <==> r in before || (r.from == from && InClosure(adj, maxDepth, r))
  {
    if d <= maxDepth {
      assert Step(ArrowsOf(adj), seen.Keys) <= seen.Keys;
      BallFixpoint(ArrowsOf(adj), from, d - 1, maxDepth);
    }
    forall r: Row
      ensures r.from == from && r.to in seen && seen[r.to] == r.depth > 0 <==>
              r.from == from && InClosure(adj, maxDepth, r)
    {
      SeenIsClosure(adj, maxDepth, d - 1, seen, from, r);
    }
  }

  lemma {:induction false} SeenIsClosure(adj: Adjacency, maxDepth: int, d: nat, seen: map<Id, int>, from: Id, r: Row)
    requires from in adj && Measured(adj, from, d, seen)
    requires d <= maxDepth || d == 0
    requires maxDepth > d ==> Ball(ArrowsOf(adj), from, maxDepth) == Ball(ArrowsOf(adj), from, d)
    ensures r.from == from && r.to in seen && seen[r.to] == r.depth > 0 <==>
            r.from == from && InClosure(adj, maxDepth, r)
  {
    var arrows := ArrowsOf(adj);
    BallMonotone(arrows, from, 0, d);
    LayerIsDistance(arrows, from, from, 0);
    if r.from == from && InClosure(adj, maxDepth, r) {
      LayerIsDistance(arrows, from, r.to, r.depth);
      BallMonotone(arrows, from, r.depth, maxDepth);
    }
  }

  /** measureClosure's build loop. The table holds exactly the pairs at distance 1 to maxDepth, each
      with that distance, each once; every INSERT OR IGNORE inserted. */
  method BuildClosure(adj: Adjacency, maxDepth: int) returns (t: Table)
    ensures fresh(t) && t.Keyed() && t.executed == |t.rows|
    ensures forall r :: r in t.rows <==> InClosure(adj, maxDepth, r)
    ensures forall r: Row :: r in t.rows <==>
              && r.from in adj && r.to != r.from && 1 <= r.depth <= maxDepth
              && Connected(ArrowsOf(adj), r.from, r.to, r.depth)
              && forall h: nat | h < r.depth :: !Connected(ArrowsOf(adj), r.from, r.to, h)
  {
    t := new Table();
    var sources := adj.Keys;
    while sources != {}
      invariant fresh(t) && t.Keyed() && |t.rows| == t.executed && sources <= adj.Keys
      invariant forall r :: r in t.rows <==> r.from !in sources && InClosure(adj, maxDepth, r)
      decreases sources
    {
      var from :| from in sources;
      Search(t, adj, from, maxDepth);
      sources := sources - {from};
    }
  }

  /** Raising the bound only adds rows: the rows of the smaller table are those of the larger one
      whose depth fits. */
  lemma {:induction false} DeeperClosureExtends(adj: Adjacency, small: int, large: int, r: Row)
    requires small <= large
    ensures InClosure(adj, small, r) <==> InClosure(adj, large, r) && r.depth <= small
  {
  }
}
