/** `pincher callflow`: the capped breadth-first walk of cmd/pinch/callflow.go. */
module Callflow {
  import opened Graph
  import Sorting
  import Text

  const NODE_CAP := 150

  /** A CALLS row, and at the same time the `callflowEdge` pair built from it. */
  datatype Edge = Edge(from: Id, to: Id)

  /** The project's CALLS rows, and the ids whose lookup by either end returns an error. */
  datatype Store = Store(calls: seq<Edge>, failFrom: set<Id>, failTo: set<Id>) {
    /** EdgesFromScoped; an error is treated by the caller as no rows. */
    function EdgesFrom(id: Id): (rows: seq<Edge>)
      ensures forall e :: e in rows <==> e in calls && e.from == id && id !in failFrom
    {
      if id in failFrom then [] else Matching(calls, id, true)
    }

    /** EdgesToScoped; an error is treated by the caller as no rows. */
    function EdgesTo(id: Id): (rows: seq<Edge>)
      ensures forall e :: e in rows <==> e in calls && e.to == id && id !in failTo
    {
      if id in failTo then [] else Matching(calls, id, false)
    }

    static function Matching(rows: seq<Edge>, id: Id, byFrom: bool): (r: seq<Edge>)
      ensures forall e :: e in r <==> e in rows && (if byFrom then e.from else e.to) == id
    {
      if rows == [] then []
      else (if (if byFrom then rows[0].from else rows[0].to) == id then [rows[0]] else [])
           + Matching(rows[1..], id, byFrom)
    }
  }

  /** Which ends of a row the walk follows. */
  datatype Direction = Direction(callees: bool, callers: bool)

  function ParseDirection(direction: string): Direction {
    Direction(direction == "callees" || direction == "both", direction == "callers" || direction == "both")
  }

  /** The rows a walk in this direction reads when it expands the nodes of s. */
  function RowsRead(store: Store, direction: Direction, s: set<Id>): set<Edge> {
    set e | e in store.calls &&
            ((direction.callees && e.from in s && e.from !in store.failFrom) ||
             (direction.callers && e.to in s && e.to !in store.failTo))
  }

  /** The hops a walk in this direction can take. */
  function Hops(store: Store, direction: Direction): Arrows {
    (set e | e in store.calls && direction.callees && e.from !in store.failFrom :: (e.from, e.to)) +
    (set e | e in store.calls && direction.callers && e.to !in store.failTo :: (e.to, e.from))
  }

  predicate EdgeLess(a: Edge, b: Edge) {
    if a.from != b.from then Text.Less(a.from, b.from) else Text.Less(a.to, b.to)
  }

  lemma {:induction false} EdgeLessIsOrder()
    ensures Sorting.StrictTotalOrder(EdgeLess)
  {
    forall x: Edge ensures !EdgeLess(x, x) { Text.LessIrreflexive(x.to); }
    forall x: Edge, y: Edge, z: Edge | EdgeLess(x, y) && EdgeLess(y, z) ensures EdgeLess(x, z) {
      if x.from == y.from == z.from {
        Text.LessTransitive(x.to, y.to, z.to);
      } else if x.from != y.from && y.from != z.from {
        Text.LessTransitive(x.from, y.from, z.from);
        Text.LessIrreflexive(x.from);
        if x.from == z.from { Text.LessTransitive(x.from, y.from, x.from); }
      }
    }
    forall x: Edge, y: Edge ensures EdgeLess(x, y) || x == y || EdgeLess(y, x) {
      Text.LessTotal(x.from, y.from);
      Text.LessTotal(x.to, y.to);
    }
  }

  function Items(s: seq<Id>): set<Id> { set u | u in s }

  /** Add the far ends of the rows just read, up to the cap. */
  method Admit(ends: seq<Id>, nodes: set<Id>, next: seq<Id>, truncated: bool)
    returns (nodes': set<Id>, next': seq<Id>, truncated': bool)
    requires |nodes| <= NODE_CAP
    ensures nodes <= nodes' <= nodes + Items(ends)
    ensures |nodes'| <= NODE_CAP && (|nodes| == NODE_CAP ==> nodes' == nodes)
    ensures forall x :: x in next' <==> x in next || (x in nodes' && x !in nodes)
    ensures truncated ==> truncated'
    ensures !truncated' ==> Items(ends) <= nodes'
    ensures truncated' && !truncated ==> |nodes'| == NODE_CAP && !(Items(ends) <= nodes')
  {
    nodes', next', truncated' := nodes, next, truncated;
    for i := 0 to |ends|
      invariant nodes <= nodes' <= nodes + Items(ends)
      invariant |nodes'| <= NODE_CAP && (|nodes| == NODE_CAP ==> nodes' == nodes)
      invariant forall x :: x in next' <==> x in next || (x in nodes' && x !in nodes)
      invariant truncated ==> truncated'
      invariant !truncated' ==> forall j | 0 <= j < i :: ends[j] in nodes'
      invariant truncated' && !truncated ==> |nodes'| == NODE_CAP && !(Items(ends) <= nodes')
    {
      var x := ends[i];
      if x !in nodes' {
        if |nodes'| >= NODE_CAP {
          truncated' := true;
          assert x in Items(ends);
        } else {
          nodes' := nodes' + {x};
          next' := next' + [x];
        }
      }
    }
  }

  /** What one round may assume and must keep about a walk that has gone `hop` hops of at most `depth`. */
  ghost predicate Walking(arrows: Arrows, seed: Id, depth: nat, hop: nat, nodes: set<Id>, truncated: bool) {
    && hop <= depth
    && |nodes| <= NODE_CAP
    && seed in nodes
    && nodes <= Ball(arrows, seed, hop)
    && (truncated ==> |nodes| == NODE_CAP && !(Ball(arrows, seed, depth) <= nodes))
  }

  /** The callee ends, or the caller ends, of some rows. */
  function Ends(rows: seq<Edge>, callees: bool): (ends: seq<Id>) {
    seq(|rows|, i requires 0 <= i < |rows| => if callees then rows[i].to else rows[i].from)
  }

  function FarEnds(store: Store, direction: Direction, id: Id): set<Id> {
    (if direction.callees then Items(Ends(store.EdgesFrom(id), true)) else {}) +
    (if direction.callers then Items(Ends(store.EdgesTo(id), false)) else {})
  }

  function RowsAt(store: Store, direction: Direction, id: Id): set<Edge> {
    (if direction.callees then set e | e in store.EdgesFrom(id) else {}) +
    (if direction.callers then set e | e in store.EdgesTo(id) else {})
  }

  /** Read the rows at one node and admit their far ends. */
  method ExpandNode(store: Store, direction: Direction, id: Id, nodes: set<Id>, edgeSet: set<Edge>, next: seq<Id>,
                    truncated: bool)
    returns (nodes': set<Id>, edgeSet': set<Edge>, next': seq<Id>, truncated': bool)
    requires |nodes| <= NODE_CAP
    ensures nodes <= nodes' <= nodes + FarEnds(store, direction, id)
    ensures |nodes'| <= NODE_CAP && (|nodes| == NODE_CAP ==> nodes' == nodes)
    ensures forall e :: e in edgeSet' <==> e in edgeSet || e in RowsAt(store, direction, id)
    ensures forall x :: x in next' <==> x in next || (x in nodes' && x !in nodes)
    ensures truncated ==> truncated'
    ensures !truncated' ==> FarEnds(store, direction, id) <= nodes'
    ensures truncated' && !truncated ==> |nodes'| == NODE_CAP && !(FarEnds(store, direction, id) <= nodes')
  {
    nodes', edgeSet', next', truncated' := nodes, edgeSet, next, truncated;
    if direction.callees {
      var out := store.EdgesFrom(id);
      edgeSet' := edgeSet' + set e | e in out;
      nodes', next', truncated' := Admit(Ends(out, true), nodes', next', truncated');
    }
    if direction.callers {
      var into := store.EdgesTo(id);
      edgeSet' := edgeSet' + set e | e in into;
      nodes', next', truncated' := Admit(Ends(into, false), nodes', next', truncated');
    }
  }

  lemma {:induction false} RowsAtNode(store: Store, direction: Direction, id: Id)
    ensures RowsRead(store, direction, {id}) == RowsAt(store, direction, id)
  {
  }

  lemma {:induction false} HopsAtNode(store: Store, direction: Direction, id: Id)
    ensures Step(Hops(store, direction), {id}) == FarEnds(store, direction, id)
  {
    forall x
      ensures x in Step(Hops(store, direction), {id}) <==> x in FarEnds(store, direction, id)
    {
      EndsOf(store.EdgesFrom(id), true, x);
      EndsOf(store.EdgesTo(id), false, x);
      FarEndIsHop(store, direction, id, x);
    }
  }

  lemma {:induction false} FarEndIsHop(store: Store, direction: Direction, id: Id, x: Id)
    ensures (id, x) in Hops(store, direction) <==>
            || (direction.callees && exists e :: e in store.EdgesFrom(id) && e.to == x)
            || (direction.callers && exists e :: e in store.EdgesTo(id) && e.from == x)
  {
    if direction.callees && exists e :: e in store.EdgesFrom(id) && e.to == x {
      assert Edge(id, x) in store.EdgesFrom(id);
    }
    if direction.callers && exists e :: e in store.EdgesTo(id) && e.from == x {
      assert Edge(x, id) in store.EdgesTo(id);
    }
  }

  lemma {:induction false} EndsOf(rows: seq<Edge>, callees: bool, x: Id)
    ensures x in Ends(rows, callees) <==> exists e :: e in rows && (if callees then e.to else e.from) == x
  {
    var ends := Ends(rows, callees);
    assert forall i | 0 <= i < |rows| :: rows[i] in rows;
    if x in ends {
      var i :| 0 <= i < |ends| && ends[i] == x;
      assert rows[i] in rows;
    }
    forall e | e in rows && (if callees then e.to else e.from) == x ensures x in ends {
      var i :| 0 <= i < |rows| && rows[i] == e;
      assert ends[i] == x;
    }
  }

  /** Expand every node of the frontier once. */
  method Round(store: Store, direction: Direction, ghost seed: Id, ghost depth: nat, ghost hop: nat,
               nodes: set<Id>, edgeSet: set<Edge>, frontier: seq<Id>, truncated: bool)
    returns (nodes': set<Id>, edgeSet': set<Edge>, next: seq<Id>, truncated': bool)
    requires hop < depth && Walking(Hops(store, direction), seed, depth, hop, nodes, truncated)
    requires Items(frontier) <= nodes
    ensures Walking(Hops(store, direction), seed, depth, hop + 1, nodes', truncated')
    ensures nodes <= nodes' && (truncated ==> truncated')
    ensures Items(next) == nodes' - nodes
    ensures edgeSet' == edgeSet + RowsRead(store, direction, Items(frontier))
    ensures !truncated' ==> Step(Hops(store, direction), Items(frontier)) <= nodes'
  {
    ghost var arrows := Hops(store, direction);
    nodes', edgeSet', next, truncated' := nodes, edgeSet, [], truncated;
    StepStaysInBall(arrows, seed, hop, depth, nodes);
    for i := 0 to |frontier|
      invariant nodes <= nodes' <= nodes + Step(arrows, nodes) && |nodes'| <= NODE_CAP
      invariant truncated ==> truncated'
      invariant truncated' ==> |nodes'| == NODE_CAP && !(Ball(arrows, seed, depth) <= nodes')
      invariant forall x :: x in next <==> x in nodes' && x !in nodes
      invariant forall e :: e in edgeSet' <==> e in edgeSet || e in RowsRead(store, direction, Items(frontier[..i]))
      invariant !truncated' ==> Step(arrows, Items(frontier[..i])) <= nodes'
    {
      var id := frontier[i];
      FrontierGrows(store, direction, frontier, i, nodes);
      nodes', edgeSet', next, truncated' := ExpandNode(store, direction, id, nodes', edgeSet', next, truncated');
    }
    assert frontier[..|frontier|] == frontier;
  }

  lemma {:induction false} StepStaysInBall(arrows: Arrows, seed: Id, hop: nat, depth: nat, nodes: set<Id>)
    requires hop < depth && nodes <= Ball(arrows, seed, hop)
    ensures Step(arrows, nodes) <= Ball(arrows, seed, hop + 1) <= Ball(arrows, seed, depth)
    ensures nodes + Step(arrows, nodes) <= Ball(arrows, seed, hop + 1)
  {
    BallMonotone(arrows, seed, hop + 1, depth);
  }

  lemma {:induction false} FrontierGrows(store: Store, direction: Direction, frontier: seq<Id>, i: nat, nodes: set<Id>)
    requires i < |frontier| && frontier[i] in nodes
    ensures RowsRead(store, direction, Items(frontier[..i + 1]))
         == RowsRead(store, direction, Items(frontier[..i])) + RowsAt(store, direction, frontier[i])
    ensures Step(Hops(store, direction), Items(frontier[..i + 1]))
         == Step(Hops(store, direction), Items(frontier[..i])) + FarEnds(store, direction, frontier[i])
    ensures FarEnds(store, direction, frontier[i]) <= Step(Hops(store, direction), nodes)
  {
    assert Items(frontier[..i + 1]) == Items(frontier[..i]) + {frontier[i]};
    RowsAtNode(store, direction, frontier[i]);
    HopsAtNode(store, direction, frontier[i]);
    RowsReadUnion(store, direction, Items(frontier[..i]), {frontier[i]});
  }

  /** collectCallflow. The arrows are the rows from caller to callee for "callees", those from callee to caller for
      "callers", all of them for "both", and none for any other direction. The flag is exact: it is raised if and only
      if more than 150 nodes lie within `depth` arrows, and while it is down the diagram is the whole ball. The edges
      are exactly the rows met within `depth - 1` arrows that run between kept nodes, which without truncation all of
      them do. */
  method CollectCallflow(store: Store, seed: Id, direction: string, depth: int)
    returns (nodes: set<Id>, edges: seq<Edge>, truncated: bool, ghost arrows: Arrows)
    ensures forall a, b :: (a, b) in arrows <==>
              || ((direction == "callees" || direction == "both") && Edge(a, b) in store.calls && a !in store.failFrom)
              || ((direction == "callers" || direction == "both") && Edge(b, a) in store.calls && a !in store.failTo)
    ensures var reach := Ball(arrows, seed, if depth < 0 then 0 else depth);
            && (truncated <==> |reach| > 150)
            && |nodes| <= 150 && seed in nodes && nodes <= reach && (!truncated ==> nodes == reach)
    ensures forall e :: e in edges <==>
              e.from in nodes && e.to in nodes && depth > 0 && Met(store, direction, Ball(arrows, seed, depth - 1), e)
    ensures !truncated && depth > 0 ==>
              forall e | Met(store, direction, Ball(arrows, seed, depth - 1), e) :: e.from in nodes && e.to in nodes
    ensures forall i, j | 0 <= i < j < |edges| ::
              || Text.Less(edges[i].from, edges[j].from)
              || (edges[i].from == edges[j].from && Text.Less(edges[i].to, edges[j].to))
  {
    var edgeSet;
    ghost var hop, line;
    nodes, edgeSet, truncated, hop, line := Walk(store, seed, ParseDirection(direction), depth);
    WalkIsExact(store, ParseDirection(direction), seed, depth, hop, nodes, edgeSet, line, truncated);
    var kept := set e | e in edgeSet && e.from in nodes && e.to in nodes;
    EdgeLessIsOrder();
    edges := Sorting.SortedElements(EdgeLess, kept);
    arrows := Hops(store, ParseDirection(direction));
    ArrowsOnStrings(store, direction);
    ReachOnStrings(store, direction, seed, depth);
  }

  lemma {:induction false} ArrowsOnStrings(store: Store, direction: string)
    ensures forall a, b :: (a, b) in Hops(store, ParseDirection(direction)) <==>
              || ((direction == "callees" || direction == "both") && Edge(a, b) in store.calls && a !in store.failFrom)
              || ((direction == "callers" || direction == "both") && Edge(b, a) in store.calls && a !in store.failTo)
  {
    forall a, b ensures (a, b) in Hops(store, ParseDirection(direction)) <==>
      || ((direction == "callees" || direction == "both") && Edge(a, b) in store.calls && a !in store.failFrom)
      || ((direction == "callers" || direction == "both") && Edge(b, a) in store.calls && a !in store.failTo) {
      HopsOnStrings(store, direction, a, b);
    }
  }

  lemma {:induction false} ReachOnStrings(store: Store, direction: string, seed: Id, depth: int)
    ensures forall e :: InReach(store, ParseDirection(direction), seed, depth, e) <==>
              depth > 0 && Met(store, direction, Ball(Hops(store, ParseDirection(direction)), seed, depth - 1), e)
  {
    if depth > 0 {
      var near := Ball(Hops(store, ParseDirection(direction)), seed, depth - 1);
      forall e ensures e in RowsRead(store, ParseDirection(direction), near) <==> Met(store, direction, near, e) {
        MetOnStrings(store, direction, near, e);
      }
    }
  }

  /** The row is read at one of the nodes: at its caller when callees are walked, at its callee when callers are. */
  ghost predicate Met(store: Store, direction: string, s: set<Id>, e: Edge) {
    && e in store.calls
    && (|| ((direction == "callees" || direction == "both") && e.from in s && e.from !in store.failFrom)
        || ((direction == "callers" || direction == "both") && e.to in s && e.to !in store.failTo))
  }

  lemma {:induction false} MetOnStrings(store: Store, direction: string, s: set<Id>, e: Edge)
    ensures e in RowsRead(store, ParseDirection(direction), s) <==>
            && e in store.calls
            && (|| ((direction == "callees" || direction == "both") && e.from in s && e.from !in store.failFrom)
                || ((direction == "callers" || direction == "both") && e.to in s && e.to !in store.failTo))
  {
  }

  lemma {:induction false} HopsOnStrings(store: Store, direction: string, a: Id, b: Id)
    ensures (a, b) in Hops(store, ParseDirection(direction)) <==>
            || ((direction == "callees" || direction == "both") && Edge(a, b) in store.calls && a !in store.failFrom)
            || ((direction == "callers" || direction == "both") && Edge(b, a) in store.calls && a !in store.failTo)
  {
    var d := ParseDirection(direction);
    HopsAre(store, d, a, b);
  }

  lemma {:induction false} HopsAre(store: Store, d: Direction, a: Id, b: Id)
    ensures (a, b) in Hops(store, d) <==>
            || (d.callees && Edge(a, b) in store.calls && a !in store.failFrom)
            || (d.callers && Edge(b, a) in store.calls && a !in store.failTo)
  {
    if (a, b) in Hops(store, d) {
      var e :| e in store.calls && ((d.callees && e.from !in store.failFrom && (e.from, e.to) == (a, b)) ||
                                    (d.callers && e.to !in store.failTo && (e.to, e.from) == (a, b)));
      assert e == Edge(e.from, e.to);
    }
    if d.callees && Edge(a, b) in store.calls && a !in store.failFrom {
      assert (Edge(a, b).from, Edge(a, b).to) == (a, b);
    }
    if d.callers && Edge(b, a) in store.calls && a !in store.failTo {
      assert (Edge(b, a).to, Edge(b, a).from) == (a, b);
    }
  }

  /** The row is among those of the nodes within depth - 1 hops. */
  ghost predicate InReach(store: Store, direction: Direction, seed: Id, depth: int, e: Edge) {
    depth > 0 && e in RowsRead(store, direction, Ball(Hops(store, direction), seed, depth - 1))
  }

  lemma {:induction false} RowsStayInside(store: Store, direction: Direction, expanded: set<Id>, nodes: set<Id>)
    requires expanded <= nodes && Step(Hops(store, direction), expanded) <= nodes
    ensures forall e | e in RowsRead(store, direction, expanded) :: e.from in nodes && e.to in nodes
  {
    forall e | e in RowsRead(store, direction, expanded)
      ensures e.from in nodes && e.to in nodes
    {
      if direction.callees && e.from in expanded && e.from !in store.failFrom {
        assert (e.from, e.to) in Hops(store, direction);
      } else {
        assert (e.to, e.from) in Hops(store, direction);
      }
    }
  }

  /** The expanded nodes are those that fewer than `hop` hops reach. */
  ghost predicate Reached(arrows: Arrows, seed: Id, hop: int, nodes: set<Id>, expanded: set<Id>) {
    forall x :: x in expanded <==> hop > 0 && x in nodes && x in Ball(arrows, seed, hop - 1)
  }

  /** Between rounds. The nodes reached before the last hop have been expanded, the others are the frontier,
      everything read is accounted for, and an untruncated walk holds a whole ball. */
  ghost predicate Between(store: Store, direction: Direction, seed: Id, depth: nat, hop: nat, nodes: set<Id>,
                          edgeSet: set<Edge>, frontier: set<Id>, truncated: bool, expanded: set<Id>) {
    && Walking(Hops(store, direction), seed, depth, hop, nodes, truncated)
    && Spread(Hops(store, direction), seed, hop, nodes, expanded, frontier, truncated)
    && forall e :: e in edgeSet <==> e in RowsRead(store, direction, expanded)
  }

  ghost predicate Spread(arrows: Arrows, seed: Id, hop: nat, nodes: set<Id>, expanded: set<Id>, frontier: set<Id>,
                         truncated: bool) {
    && (forall x :: x in nodes <==> x in expanded || x in frontier) && Reached(arrows, seed, hop, nodes, expanded)
    && (!truncated ==> nodes == Ball(arrows, seed, hop) && Step(arrows, expanded) <= nodes)
  }

  /** A full set has no proper superset within the cap. */
  lemma {:induction false} FullStays(s: set<Id>, t: set<Id>)
    requires s <= t && |t| <= NODE_CAP && |s| == NODE_CAP
    ensures s == t
  {
    if !(t <= s) {
      ProperSubset(s, t);
    }
  }

  lemma {:induction false} RoundSpreads(arrows: Arrows, seed: Id, hop: nat, nodes: set<Id>, expanded: set<Id>,
                                        frontier: set<Id>, truncated: bool, nodes': set<Id>, truncated': bool)
    requires Spread(arrows, seed, hop, nodes, expanded, frontier, truncated)
    requires nodes <= Ball(arrows, seed, hop) && nodes <= nodes' <= Ball(arrows, seed, hop + 1)
    requires truncated ==> nodes' == nodes
    requires truncated ==> truncated'
    requires !truncated' ==> Step(arrows, frontier) <= nodes'
    ensures Spread(arrows, seed, hop + 1, nodes', expanded + frontier, nodes' - nodes, truncated')
  {
    assert forall x :: x in nodes <==> x in nodes' && x in Ball(arrows, seed, hop);
    if !truncated' {
      assert Step(arrows, nodes) == Step(arrows, expanded) + Step(arrows, frontier);
    }
  }

  lemma {:induction false} RoundKeepsBetween(store: Store, direction: Direction, seed: Id, depth: nat, hop: nat,
                                             nodes: set<Id>, edgeSet: set<Edge>, frontier: set<Id>, truncated: bool,
                                             expanded: set<Id>, nodes': set<Id>, edgeSet': set<Edge>, next: set<Id>,
                                             truncated': bool)
    requires Between(store, direction, seed, depth, hop, nodes, edgeSet, frontier, truncated, expanded)
    requires Walking(Hops(store, direction), seed, depth, hop + 1, nodes', truncated')
    requires nodes <= nodes' && (truncated ==> truncated') && next == nodes' - nodes
    requires edgeSet' == edgeSet + RowsRead(store, direction, frontier)
    requires !truncated' ==> Step(Hops(store, direction), frontier) <= nodes'
    ensures Between(store, direction, seed, depth, hop + 1, nodes', edgeSet', next, truncated', expanded + frontier)
  {
    RowsReadUnion(store, direction, expanded, frontier);
    if truncated {
      FullStays(nodes, nodes');
    }
    RoundSpreads(Hops(store, direction), seed, hop, nodes, expanded, frontier, truncated, nodes', truncated');
  }

  ghost predicate Underway(store: Store, direction: Direction, seed: Id, depth: nat, hop: nat, nodes: set<Id>,
                           edgeSet: set<Edge>, line: seq<Id>, truncated: bool) {
    exists expanded :: Between(store, direction, seed, depth, hop, nodes, edgeSet, Items(line), truncated, expanded)
  }

  /** The loop over hops. */
  method Walk(store: Store, seed: Id, direction: Direction, depth: int)
    returns (nodes: set<Id>, edgeSet: set<Edge>, truncated: bool, ghost hop: nat, ghost line: seq<Id>)
    ensures Underway(store, direction, seed, Radius(depth), hop, nodes, edgeSet, line, truncated)
    ensures hop >= depth || line == []
  {
    nodes, edgeSet, truncated := {seed}, {}, false;
    var frontier := [seed];
    var h := 0;
    WalkBegins(store, direction, seed, Radius(depth), frontier);
    while h < depth && |frontier| > 0
      invariant 0 <= h <= Radius(depth)
      invariant Underway(store, direction, seed, Radius(depth), h, nodes, edgeSet, frontier, truncated)
    {
      nodes, edgeSet, frontier, truncated :=
        Hop(store, direction, seed, Radius(depth), h, nodes, edgeSet, frontier, truncated);
      h := h + 1;
    }
    hop, line := h, frontier;
  }

  lemma {:induction false} WalkBegins(store: Store, direction: Direction, seed: Id, depth: nat, line: seq<Id>)
    requires line == [seed]
    ensures Underway(store, direction, seed, depth, 0, {seed}, {}, line, false)
  {
    assert Items(line) == {seed};
    assert Between(store, direction, seed, depth, 0, {seed}, {}, Items(line), false, {});
  }

  /** One hop. */
  method Hop(store: Store, direction: Direction, ghost seed: Id, ghost depth: nat, ghost hop: nat, nodes: set<Id>,
             edgeSet: set<Edge>, line: seq<Id>, truncated: bool)
    returns (nodes': set<Id>, edgeSet': set<Edge>, line': seq<Id>, truncated': bool)
    requires hop < depth && Underway(store, direction, seed, depth, hop, nodes, edgeSet, line, truncated)
    ensures Underway(store, direction, seed, depth, hop + 1, nodes', edgeSet', line', truncated')
  {
    ghost var expanded :|
      Between(store, direction, seed, depth, hop, nodes, edgeSet, Items(line), truncated, expanded);
    nodes', edgeSet', line', truncated' := Round(store, direction, seed, depth, hop, nodes, edgeSet, line, truncated);
    RoundKeepsBetween(store, direction, seed, depth, hop, nodes, edgeSet, Items(line), truncated, expanded,
                      nodes', edgeSet', Items(line'), truncated');
  }

  lemma {:induction false} RowsReadUnion(store: Store, direction: Direction, s: set<Id>, t: set<Id>)
    ensures RowsRead(store, direction, s + t) == RowsRead(store, direction, s) + RowsRead(store, direction, t)
    ensures Step(Hops(store, direction), s + t) == Step(Hops(store, direction), s) + Step(Hops(store, direction), t)
  {
  }

  function Radius(depth: int): nat { if depth < 0 then 0 else depth }

  lemma {:induction false} ProperSubset(s: set<Id>, t: set<Id>)
    requires s <= t && !(t <= s)
    ensures |s| < |t|
  {
    var x :| x in t && x !in s;
    CardinalityMonotone(s + {x}, t);
  }

  lemma {:induction false} CardinalityMonotone(s: set<Id>, t: set<Id>)
    requires s <= t
    ensures |s| <= |t|
  {
    if s == {} {
    } else {
      var x :| x in s;
      CardinalityMonotone(s - {x}, t - {x});
    }
  }

  lemma {:induction false} Transfer(s: set<Id>, inner: set<Id>, outer: set<Id>)
    requires inner <= outer && s <= inner
    ensures forall x :: x in s <==> x in s && x in outer
  {
  }

  /** A walk that ran out of frontier has expanded every node. */
  lemma {:induction false} DryWalk(arrows: Arrows, seed: Id, hop: nat, depth: nat, nodes: set<Id>, ball: set<Id>)
    requires 0 < hop < depth && ball == Ball(arrows, seed, depth - 1)
    requires Reached(arrows, seed, hop, nodes, nodes)
    ensures forall x :: x in nodes <==> x in nodes && x in ball
  {
    BallMonotone(arrows, seed, hop - 1, depth - 1);
    Transfer(nodes, Ball(arrows, seed, hop - 1), ball);
  }

  /** A walk that ran out of depth or of frontier. */
  lemma {:induction false} WalkIsExact(store: Store, direction: Direction, seed: Id, depth: int, hop: nat,
                                       nodes: set<Id>, edgeSet: set<Edge>, line: seq<Id>, truncated: bool)
    requires Underway(store, direction, seed, Radius(depth), hop, nodes, edgeSet, line, truncated)
    requires hop >= depth || line == []
    ensures nodes <= Ball(Hops(store, direction), seed, Radius(depth))
    ensures truncated <==> |Ball(Hops(store, direction), seed, Radius(depth))| > NODE_CAP
    ensures !truncated ==> nodes == Ball(Hops(store, direction), seed, Radius(depth))
    ensures forall e :: e in edgeSet && e.from in nodes && e.to in nodes <==>
              e.from in nodes && e.to in nodes && InReach(store, direction, seed, depth, e)
    ensures !truncated ==> forall e | InReach(store, direction, seed, depth, e) :: e.from in nodes && e.to in nodes
  {
    var arrows := Hops(store, direction);
    var expanded :|
      Between(store, direction, seed, Radius(depth), hop, nodes, edgeSet, Items(line), truncated, expanded);
    WalkReached(arrows, seed, depth, hop, nodes, expanded, Items(line), truncated);
    RowsOfWalk(store, direction, seed, depth, nodes, expanded);
    if truncated {
      ProperSubset(nodes, Ball(arrows, seed, Radius(depth)));
    } else if depth > 0 {
      ReachStaysInside(store, direction, seed, depth);
    }
  }

  lemma {:induction false} WalkReached(arrows: Arrows, seed: Id, depth: int, hop: nat, nodes: set<Id>,
                                       expanded: set<Id>, frontier: set<Id>, truncated: bool)
    requires Spread(arrows, seed, hop, nodes, expanded, frontier, truncated)
    requires seed in nodes && nodes <= Ball(arrows, seed, hop) && hop <= Radius(depth)
    requires hop >= depth || frontier == {}
    ensures nodes <= Ball(arrows, seed, Radius(depth)) && (!truncated ==> nodes == Ball(arrows, seed, Radius(depth)))
    ensures Reached(arrows, seed, depth, nodes, expanded)
  {
    if hop < depth {
      assert nodes == expanded;
      BallMonotone(arrows, seed, hop, depth);
      DryWalk(arrows, seed, hop, depth, nodes, Ball(arrows, seed, depth - 1));
      if !truncated {
        BallFixpoint(arrows, seed, hop, depth);
      }
    } else {
      assert hop == Radius(depth);
    }
  }

  /** Reading the expanded nodes reads the rows in reach that start, or end, at a kept node. */
  lemma {:induction false} RowsOfWalk(store: Store, direction: Direction, seed: Id, depth: int, nodes: set<Id>,
                                      expanded: set<Id>)
    requires Reached(Hops(store, direction), seed, depth, nodes, expanded)
    ensures forall e: Edge | e.from in nodes && e.to in nodes ::
              e in RowsRead(store, direction, expanded) <==> InReach(store, direction, seed, depth, e)
  {
  }

  lemma {:induction false} ReachStaysInside(store: Store, direction: Direction, seed: Id, depth: nat)
    requires depth > 0
    ensures forall e | InReach(store, direction, seed, depth, e) ::
              var ball := Ball(Hops(store, direction), seed, depth); e.from in ball && e.to in ball
  {
    var arrows := Hops(store, direction);
    RowsStayInside(store, direction, Ball(arrows, seed, depth - 1), Ball(arrows, seed, depth));
  }
}
