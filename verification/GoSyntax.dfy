/** Which names of a Go function body `extractGoReads` of internal/ast/extractor.go reports as read or written,
    and in what order: a rule for each place of the syntax tree, and the stream those rules add up to. */
module GoSyntax {
  import opened Collections
  import Sorting

  /** Go syntax as the walker tells it apart: expressions with a case in `walkRead`, statements with a case in
      `walk`, and Other for every other node. Nil is an absent child. */
  datatype Node =
    | Nil
    | Ident(name: string)
    | Call(fun: Node, args: seq<Node>)
    | FuncLit(typ: Node, body: Node)
    | Selector(x: Node, sel: string)
    | Assign(define: bool, lhs: seq<Node>, rhs: seq<Node>)
    | IncDec(x: Node)
    | Block(list: seq<Node>)
    | If(init: Node, cond: Node, body: Node, els: Node)
    | For(init: Node, cond: Node, post: Node, body: Node)
    | Range(assigns: bool, key: Node, value: Node, x: Node, body: Node)  // assigns: the token is `=`
    | Switch(init: Node, tag: Node, body: Node)
    | TypeSwitch(init: Node, assign: Node, body: Node)
    | Select(body: Node)
    | CaseClause(exprs: seq<Node>, stmts: seq<Node>)
    | CommClause(comm: Node, stmts: seq<Node>)
    | Labeled(mark: Node, stmt: Node)
    | Other(children: seq<Node>)

  predicate IsStatement(n: Node) {
    !(n.Nil? || n.Ident? || n.Call? || n.FuncLit? || n.Selector? || n.Other?)
  }

  /** The children of a node, in source order. A selector's own name is part of the selector. */
  function Kids(n: Node): seq<Node> {
    match n
    case Nil => []
    case Ident(_) => []
    case Call(fun, args) => [fun] + args
    case FuncLit(typ, body) => [typ, body]
    case Selector(x, _) => [x]
    case Assign(_, lhs, rhs) => lhs + rhs
    case IncDec(x) => [x]
    case Block(list) => list
    case If(init, cond, body, els) => [init, cond, body, els]
    case For(init, cond, post, body) => [init, cond, post, body]
    case Range(_, key, value, x, body) => [key, value, x, body]
    case Switch(init, tag, body) => [init, tag, body]
    case TypeSwitch(init, assign, body) => [init, assign, body]
    case Select(body) => [body]
    case CaseClause(exprs, stmts) => exprs + stmts
    case CommClause(comm, stmts) => [comm] + stmts
    case Labeled(mark, stmt) => [mark, stmt]
    case Other(children) => children
  }

  lemma {:induction false} KidSmaller(n: Node, i: nat)
    requires i < |Kids(n)|
    ensures Kids(n)[i] < n
  {
    match n
    case Assign(_, lhs, rhs) => assert Kids(n)[i] == if i < |lhs| then lhs[i] else rhs[i - |lhs|];
    case CaseClause(exprs, stmts) => assert Kids(n)[i] == if i < |exprs| then exprs[i] else stmts[i - |exprs|];
    case _ =>
  }

  /** What stays fixed while a body is walked: the caller, the predeclared names, the imported packages and
      the declared types of locals. */
  datatype Env = Env(callerQN: string, predeclared: set<string>, importPkgs: set<string>, varTypes: map<string, string>)

  predicate IsTypePunctuation(c: char) {
    || c == ' ' || c == '\t' || c == '[' || c == ']' || c == '{' || c == '}' || c == '(' || c == ')'
    || c == '*' || c == '<' || c == '>' || c == '-' || c == '/'
  }

  predicate IsTypeName(t: string) { t == [] || (!IsTypePunctuation(t[0]) && IsTypeName(t[1..])) }

  /** A plain or package-qualified type name, without its leading star; "" for any other type. */
  function StructBase(t: string): string {
    var t := if t != [] && t[0] == '*' then t[1..] else t;
    if IsTypeName(t) then t else ""
  }

  function BaseTypeOf(env: Env, x: Node): string {
    if x.Ident? && x.name in env.varTypes then StructBase(env.varTypes[x.name]) else ""
  }

  predicate Imported(env: Env, x: Node) { x.Ident? && x.name in env.importPkgs }

  datatype Report = Read(name: string, baseType: string) | Write(name: string)

  // ---------- The rule for each place ----------

  /** How a node is come across: not at all, by `walk`, by `walkRead`, below the root of a plain read, as what a
      call calls, or as what is assigned to. */
  datatype Mode = AsNothing | AsStatement | AsRead | AsPart | AsCallee | AsTarget

  /** `walk` reads what is no statement, what is assigned to is read unless it is a plain name, and a plain read
      hands names, calls and selectors back to `walkRead`. */
  function Settle(mode: Mode, n: Node): Mode {
    if mode.AsStatement? && !IsStatement(n) then AsRead
    else if mode.AsTarget? && !n.Ident? then AsRead
    else if mode.AsPart? && (n.Ident? || n.Call? || n.Selector?) then AsRead
    else mode
  }

  /** Child i of a statement is a place it assigns to, other than by declaring it. */
  predicate Assigned(n: Node, i: int) {
    || (n.Assign? && !n.define && 0 <= i < |n.lhs|)
    || (n.IncDec? && i == 0)
    || (n.Range? && n.assigns && 0 <= i < 2)
  }

  /** Child i of a statement is a statement. */
  predicate Nested(n: Node, i: int) {
    match n
    case Block(_) => true
    case If(_, _, _, _) => i != 1
    case For(_, _, _, _) => i != 1
    case Range(_, _, _, _, _) => i == 3
    case Switch(_, _, _) => i != 1
    case TypeSwitch(_, _, _) => true
    case Select(_) => true
    case CaseClause(exprs, _) => i >= |exprs|
    case CommClause(_, _) => true
    case Labeled(_, _) => i == 1
    case _ => false
  }

  /** How `walk` comes to child i: what is assigned to is a target, statements are walked, labels passed over, and
      everything else is read. */
  function StatementSlot(n: Node, i: nat): Mode {
    if Assigned(n, i) then AsTarget
    else if Nested(n, i) then AsStatement
    else if n.Labeled? then AsNothing
    else AsRead
  }

  /** How `walkRead` comes to child i: a call's arguments are read, a function literal's body is walked, a
      package name is left to its selector, and everything else is part of a plain read. */
  function ReadSlot(env: Env, n: Node, i: nat): Mode {
    match n
    case Call(_, _) => if i == 0 then AsCallee else AsRead
    case FuncLit(_, _) => if i == 0 then AsNothing else AsStatement
    case Selector(x, _) => if Imported(env, x) then AsNothing else AsRead
    case _ => AsPart
  }

  /** What a call calls is only looked into for its receiver or for the body of a literal. */
  function CalleeSlot(n: Node, i: nat): Mode {
    match n
    case Selector(_, _) => AsRead
    case FuncLit(_, _) => if i == 0 then AsNothing else AsStatement
    case _ => AsNothing
  }

  function Slot(env: Env, n: Node, mode: Mode, i: nat): Mode {
    match Settle(mode, n)
    case AsStatement => StatementSlot(n, i)
    case AsRead => ReadSlot(env, n, i)
    case AsPart => AsPart
    case AsCallee => CalleeSlot(n, i)
    case _ => AsNothing
  }

  /** What the node itself reports, after its children. */
  function Own(env: Env, n: Node, mode: Mode): Option<Report> {
    match Settle(mode, n)
    case AsTarget => Some(Write(n.name))
    case AsRead =>
      if n.Ident? then Some(Read(n.name, ""))
      else if !n.Selector? then None
      else if Imported(env, n.x) then Some(Read(n.x.name + "." + n.sel, ""))
      else Some(Read(n.sel, BaseTypeOf(env, n.x)))
    case _ => None
  }

  function OwnReports(env: Env, n: Node, mode: Mode): seq<Report> {
    if Own(env, n, mode).Some? then [Own(env, n, mode).value] else []
  }

  /** The reports of a tree in source order. */
  function Stream(env: Env, n: Node, mode: Mode): seq<Report>
    decreases n, |Kids(n)| + 1
  {
    if mode.AsNothing? then [] else Below(env, n, mode, |Kids(n)|) + OwnReports(env, n, mode)
  }

  /** The reports of the first i children. */
  function Below(env: Env, n: Node, mode: Mode, i: nat): seq<Report>
    requires i <= |Kids(n)|
    decreases n, i
  {
    if i == 0 then []
    else
      KidSmaller(n, i - 1);
      Below(env, n, mode, i - 1) + Stream(env, Kids(n)[i - 1], Slot(env, n, mode, i - 1))
  }

  // ---------- The stream, place by place ----------

  /** A place in a tree: the number of the child to take at each step down. */
  type Place = seq<nat>

  /** Source order of reports: by place, a node after what is below it. */
  predicate Before(p: Place, q: Place) {
    p != [] && (q == [] || p[0] < q[0] || (p[0] == q[0] && Before(p[1..], q[1..])))
  }

  lemma {:induction false} BeforeIrreflexive(p: Place)
    ensures !Before(p, p)
  {
    if p == [] {
    } else {
      BeforeIrreflexive(p[1..]);
    }
  }

  lemma {:induction false} BeforeTransitive(p: Place, q: Place, r: Place)
    requires Before(p, q) && Before(q, r)
    ensures Before(p, r)
  {
    if r != [] && p[0] == q[0] == r[0] {
      BeforeTransitive(p[1..], q[1..], r[1..]);
    }
  }

  lemma {:induction false} BeforeTotal(p: Place, q: Place)
    ensures Before(p, q) || p == q || Before(q, p)
  {
    if p != [] && q != [] && p[0] == q[0] {
      BeforeTotal(p[1..], q[1..]);
      assert p == [p[0]] + p[1..] && q == [q[0]] + q[1..];
    }
  }

  lemma {:induction false} BeforeIsOrder()
    ensures Sorting.StrictTotalOrder(Before)
  {
    forall p: Place ensures !Before(p, p) { BeforeIrreflexive(p); }
    forall p: Place, q: Place, r: Place | Before(p, q) && Before(q, r) ensures Before(p, r) {
      BeforeTransitive(p, q, r);
    }
    forall p: Place, q: Place ensures Before(p, q) || p == q || Before(q, p) { BeforeTotal(p, q); }
  }

  /** A node of the tree and how the walker comes across it. */
  datatype Spot = Spot(node: Node, mode: Mode)

  /** What is found at a place. */
  ghost function At(env: Env, n: Node, mode: Mode, p: Place): Option<Spot>
    decreases p
  {
    if p == [] then Some(Spot(n, mode))
    else if p[0] < |Kids(n)| then At(env, Kids(n)[p[0]], Slot(env, n, mode, p[0]), p[1..])
    else None
  }

  /** The node at a place. */
  ghost function NodeAt(n: Node, p: Place): Option<Node>
    decreases p
  {
    if p == [] then Some(n) else if p[0] < |Kids(n)| then NodeAt(Kids(n)[p[0]], p[1..]) else None
  }

  lemma {:induction false} AtNode(env: Env, n: Node, mode: Mode, p: Place)
    ensures var spot, node := At(env, n, mode, p), NodeAt(n, p);
            (spot.Some? <==> node.Some?) && (spot.Some? ==> spot.value.node == node.value)
    decreases p
  {
    if p != [] && p[0] < |Kids(n)| {
      AtNode(env, Kids(n)[p[0]], Slot(env, n, mode, p[0]), p[1..]);
    }
  }

  /** The rule of the place says r. */
  ghost predicate ReportedAt(env: Env, n: Node, mode: Mode, p: Place, r: Report) {
    var spot := At(env, n, mode, p);
    spot.Some? && Own(env, spot.value.node, spot.value.mode) == Some(r)
  }

  /** The reports are those of exactly the places that have one, in source order. */
  ghost predicate Locates(env: Env, n: Node, mode: Mode, reports: seq<Report>, places: seq<Place>) {
    && |places| == |reports|
    && Sorting.StrictlySorted(Before, places)
    && (forall i | 0 <= i < |places| :: ReportedAt(env, n, mode, places[i], reports[i]))
    && (forall p, r | ReportedAt(env, n, mode, p, r) :: p in places)
  }

  /** The same for the places below the first i children. */
  ghost predicate LocatesBelow(env: Env, n: Node, mode: Mode, i: nat, reports: seq<Report>, places: seq<Place>) {
    && |places| == |reports|
    && Sorting.StrictlySorted(Before, places)
    && (forall j | 0 <= j < |places| ::
          places[j] != [] && places[j][0] < i && ReportedAt(env, n, mode, places[j], reports[j]))
    && (forall p: Place, r | p != [] && p[0] < i && ReportedAt(env, n, mode, p, r) :: p in places)
  }

  lemma {:induction false} ReportedBelow(env: Env, n: Node, mode: Mode, i: nat, p: Place, r: Report)
    requires i < |Kids(n)|
    ensures ReportedAt(env, n, mode, [i] + p, r) <==> ReportedAt(env, Kids(n)[i], Slot(env, n, mode, i), p, r)
  {
    assert ([i] + p)[1..] == p;
  }

  /** Nothing is reported below what is passed over. */
  lemma {:induction false} NothingReported(env: Env, n: Node, p: Place, r: Report)
    ensures !ReportedAt(env, n, AsNothing, p, r)
    decreases p
  {
    if p != [] && p[0] < |Kids(n)| {
      NothingReported(env, Kids(n)[p[0]], p[1..], r);
      ReportedBelow(env, n, AsNothing, p[0], p[1..], r);
      assert p == [p[0]] + p[1..];
    }
  }

  ghost function Prefixed(i: nat, places: seq<Place>): (r: seq<Place>)
    ensures |r| == |places| && forall j | 0 <= j < |r| :: r[j] == [i] + places[j]
  {
    seq(|places|, j requires 0 <= j < |places| => [i] + places[j])
  }

  lemma {:induction false} PrefixedSorted(i: nat, places: seq<Place>)
    requires Sorting.StrictlySorted(Before, places)
    ensures Sorting.StrictlySorted(Before, Prefixed(i, places))
  {
    var r := Prefixed(i, places);
    forall a, b | 0 <= a < b < |r| ensures Before(r[a], r[b]) {
      assert r[a][1..] == places[a] && r[b][1..] == places[b];
    }
  }

  /** One more child: its places come after all before. */
  lemma {:induction false} BelowStep(env: Env, n: Node, mode: Mode, i: nat, reports: seq<Report>, places: seq<Place>,
                                     more: seq<Report>, morePlaces: seq<Place>)
    requires i < |Kids(n)| && LocatesBelow(env, n, mode, i, reports, places)
    requires Locates(env, Kids(n)[i], Slot(env, n, mode, i), more, morePlaces)
    ensures LocatesBelow(env, n, mode, i + 1, reports + more, places + Prefixed(i, morePlaces))
  {
    AppendSorted(i, places, morePlaces);
    AppendReported(env, n, mode, i, reports, places, more, morePlaces);
    forall p: Place, r | p != [] && p[0] < i + 1 && ReportedAt(env, n, mode, p, r)
      ensures p in places + Prefixed(i, morePlaces)
    {
      if p[0] == i {
        AppendFinds(env, n, mode, i, p, r, morePlaces);
      }
    }
  }

  lemma {:induction false} AppendSorted(i: nat, places: seq<Place>, more: seq<Place>)
    requires Sorting.StrictlySorted(Before, places) && Sorting.StrictlySorted(Before, more)
    requires forall p | p in places :: p != [] && p[0] < i
    ensures Sorting.StrictlySorted(Before, places + Prefixed(i, more))
  {
    var all := places + Prefixed(i, more);
    PrefixedSorted(i, more);
    forall a, b | 0 <= a < b < |all| ensures Before(all[a], all[b]) {
      if a < |places| <= b {
        assert all[a] in places && all[b][0] == i;
      }
    }
  }

  lemma {:induction false} AppendReported(env: Env, n: Node, mode: Mode, i: nat, reports: seq<Report>,
                                          places: seq<Place>, more: seq<Report>, morePlaces: seq<Place>)
    requires i < |Kids(n)| && |places| == |reports| && |morePlaces| == |more|
    requires forall j | 0 <= j < |places| ::
               places[j] != [] && places[j][0] < i && ReportedAt(env, n, mode, places[j], reports[j])
    requires forall j | 0 <= j < |more| ::
               ReportedAt(env, Kids(n)[i], Slot(env, n, mode, i), morePlaces[j], more[j])
    ensures var all := places + Prefixed(i, morePlaces);
            forall j | 0 <= j < |all| ::
              all[j] != [] && all[j][0] < i + 1 && ReportedAt(env, n, mode, all[j], (reports + more)[j])
  {
    var all := places + Prefixed(i, morePlaces);
    forall j | 0 <= j < |all|
      ensures all[j] != [] && all[j][0] < i + 1 && ReportedAt(env, n, mode, all[j], (reports + more)[j])
    {
      if j < |places| {
        assert all[j] == places[j] && (reports + more)[j] == reports[j];
      } else {
        var k := j - |places|;
        ReportedBelow(env, n, mode, i, morePlaces[k], more[k]);
        assert all[j] == [i] + morePlaces[k] && (reports + more)[j] == more[k];
      }
    }
  }

  lemma {:induction false} AppendFinds(env: Env, n: Node, mode: Mode, i: nat, p: Place, r: Report, more: seq<Place>)
    requires i < |Kids(n)| && p != [] && p[0] == i && ReportedAt(env, n, mode, p, r)
    requires forall q, r | ReportedAt(env, Kids(n)[i], Slot(env, n, mode, i), q, r) :: q in more
    ensures p in Prefixed(i, more)
  {
    assert p == [i] + p[1..];
    ReportedBelow(env, n, mode, i, p[1..], r);
    var j :| 0 <= j < |more| && more[j] == p[1..];
    assert Prefixed(i, more)[j] == p;
  }

  /** The node itself comes last. */
  lemma {:induction false} OwnStep(env: Env, n: Node, mode: Mode, reports: seq<Report>, places: seq<Place>)
    requires LocatesBelow(env, n, mode, |Kids(n)|, reports, places)
    ensures Locates(env, n, mode, reports + OwnReports(env, n, mode),
                    places + if Own(env, n, mode).Some? then [[]] else [])
  {
    var own: seq<Place> := if Own(env, n, mode).Some? then [[]] else [];
    RootLast(places, own);
    OwnReported(env, n, mode, reports, places, own);
    forall p, r | ReportedAt(env, n, mode, p, r) ensures p in places + own {
      OwnFinds(env, n, mode, p, r);
    }
  }

  lemma {:induction false} OwnFinds(env: Env, n: Node, mode: Mode, p: Place, r: Report)
    requires ReportedAt(env, n, mode, p, r)
    ensures if p == [] then Own(env, n, mode).Some? else p[0] < |Kids(n)|
  {
  }

  lemma {:induction false} OwnReported(env: Env, n: Node, mode: Mode, reports: seq<Report>, places: seq<Place>,
                                       own: seq<Place>)
    requires |places| == |reports| && own == if Own(env, n, mode).Some? then [[]] else []
    requires forall i | 0 <= i < |places| :: ReportedAt(env, n, mode, places[i], reports[i])
    ensures |own| == |OwnReports(env, n, mode)|
    ensures forall i | 0 <= i < |places + own| ::
              ReportedAt(env, n, mode, (places + own)[i], (reports + OwnReports(env, n, mode))[i])
  {
    var all, stream := places + own, reports + OwnReports(env, n, mode);
    forall i | 0 <= i < |all| ensures ReportedAt(env, n, mode, all[i], stream[i]) {
      if i < |places| {
        assert all[i] == places[i] && stream[i] == reports[i];
      } else {
        assert all[i] == [] && stream[i] == Own(env, n, mode).value;
      }
    }
  }

  lemma {:induction false} RootLast(places: seq<Place>, own: seq<Place>)
    requires Sorting.StrictlySorted(Before, places) && forall p | p in places :: p != []
    requires own == [[]] || own == []
    ensures Sorting.StrictlySorted(Before, places + own)
  {
    var all := places + own;
    forall a, b | 0 <= a < b < |all| ensures Before(all[a], all[b]) {
      assert all[a] == places[a] && all[a] in places;
    }
  }

  /** The stream holds one report for each place whose rule says one, in source order. */
  lemma {:induction false} StreamPlaces(env: Env, n: Node, mode: Mode) returns (places: seq<Place>)
    ensures Locates(env, n, mode, Stream(env, n, mode), places)
    decreases n, |Kids(n)| + 1
  {
    if mode.AsNothing? {
      places := [];
      forall p, r ensures !ReportedAt(env, n, mode, p, r) {
        NothingReported(env, n, p, r);
      }
    } else {
      places := BelowPlaces(env, n, mode, |Kids(n)|);
      OwnStep(env, n, mode, Below(env, n, mode, |Kids(n)|), places);
      places := places + if Own(env, n, mode).Some? then [[]] else [];
    }
  }

  lemma {:induction false} BelowPlaces(env: Env, n: Node, mode: Mode, i: nat) returns (places: seq<Place>)
    requires i <= |Kids(n)|
    ensures LocatesBelow(env, n, mode, i, Below(env, n, mode, i), places)
    decreases n, i
  {
    if i == 0 {
      places := [];
    } else {
      var j := i - 1;
      var before := BelowPlaces(env, n, mode, j);
      KidSmaller(n, j);
      var more := StreamPlaces(env, Kids(n)[j], Slot(env, n, mode, j));
      NextPlaces(env, n, mode, j, before, more);
      places := before + Prefixed(j, more);
    }
  }

  lemma {:induction false} NextPlaces(env: Env, n: Node, mode: Mode, i: nat, places: seq<Place>, more: seq<Place>)
    requires i < |Kids(n)| && LocatesBelow(env, n, mode, i, Below(env, n, mode, i), places)
    requires var kid, slot := Kids(n)[i], Slot(env, n, mode, i); Locates(env, kid, slot, Stream(env, kid, slot), more)
    ensures LocatesBelow(env, n, mode, i + 1, Below(env, n, mode, i + 1), places + Prefixed(i, more))
  {
    var kid, slot := Kids(n)[i], Slot(env, n, mode, i);
    BelowStep(env, n, mode, i, Below(env, n, mode, i), places, Stream(env, kid, slot), more);
  }

  /** So the rules and source order determine the stream. */
  lemma {:induction false} StreamUnique(env: Env, n: Node, mode: Mode, reports: seq<Report>, places: seq<Place>)
    requires Locates(env, n, mode, reports, places)
    ensures reports == Stream(env, n, mode)
  {
    var found := StreamPlaces(env, n, mode);
    forall p ensures p in places <==> p in found {
      if p in places {
        var i :| 0 <= i < |places| && places[i] == p;
        assert ReportedAt(env, n, mode, p, reports[i]);
      }
      if p in found {
        var i :| 0 <= i < |found| && found[i] == p;
        assert ReportedAt(env, n, mode, p, Stream(env, n, mode)[i]);
      }
    }
    BeforeIsOrder();
    Sorting.SortedUnique(Before, places, found);
    forall i | 0 <= i < |reports| ensures reports[i] == Stream(env, n, mode)[i] {
      assert ReportedAt(env, n, mode, places[i], reports[i]);
      assert ReportedAt(env, n, mode, found[i], Stream(env, n, mode)[i]);
    }
  }

  lemma {:induction false} InStreamIff(env: Env, n: Node, mode: Mode, r: Report)
    ensures r in Stream(env, n, mode) <==> exists p :: ReportedAt(env, n, mode, p, r)
  {
    var places := StreamPlaces(env, n, mode);
    var reports := Stream(env, n, mode);
    if r in reports {
      var i :| 0 <= i < |reports| && reports[i] == r;
      assert ReportedAt(env, n, mode, places[i], r);
    }
    if p :| ReportedAt(env, n, mode, p, r) {
      var i :| 0 <= i < |places| && places[i] == p;
      assert ReportedAt(env, n, mode, p, reports[i]);
    }
  }

  // ---------- What a plain read takes in ----------

  lemma {:induction false} AtExtends(env: Env, n: Node, mode: Mode, p: Place, i: nat)
    ensures var spot := At(env, n, mode, p);
            At(env, n, mode, p + [i]) ==
            if spot.Some? && i < |Kids(spot.value.node)|
            then Some(Spot(Kids(spot.value.node)[i], Slot(env, spot.value.node, spot.value.mode, i)))
            else None
    decreases p
  {
    if p != [] {
      assert (p + [i])[1..] == p[1..] + [i];
      if p[0] < |Kids(n)| {
        AtExtends(env, Kids(n)[p[0]], Slot(env, n, mode, p[0]), p[1..], i);
      }
    }
  }

  /** The node has no case of its own in `walkRead`. */
  predicate IsPlain(n: Node) { !(n.Ident? || n.Call? || n.FuncLit? || n.Selector?) }

  /** The place holds a node without a case of its own, read as a whole. */
  ghost predicate PlainRead(env: Env, body: Node, p: Place) {
    var spot := At(env, body, AsStatement, p);
    spot.Some? && Settle(spot.value.mode, spot.value.node).AsRead? && IsPlain(spot.value.node)
  }

  /** The place holds a node, and neither a call nor a selector. */
  ghost predicate Passes(body: Node, p: Place) {
    var node := NodeAt(body, p);
    node.Some? && !node.value.Call? && !node.value.Selector?
  }

  /** No call and no selector stands on the way from place p[..k] to place p, both ends excluded. */
  ghost predicate NoWayBack(body: Node, p: Place, k: nat) {
    forall j | k < j < |p| :: Passes(body, p[..j])
  }

  lemma {:induction false} PartSlot(env: Env, n: Node, mode: Mode, i: nat)
    requires i < |Kids(n)|
    ensures Slot(env, n, mode, i).AsPart? <==>
            (Settle(mode, n).AsRead? && IsPlain(n)) || (mode.AsPart? && !n.Call? && !n.Selector?)
  {
  }

  /** A place belongs to a plain read, where nothing is walked as a statement any more, if and only if a node
      without a case of its own is read above it with no call or selector in between. */
  lemma {:induction false} PartIff(env: Env, body: Node, p: Place)
    requires At(env, body, AsStatement, p).Some?
    ensures At(env, body, AsStatement, p).value.mode.AsPart? <==>
            exists k :: 0 <= k < |p| && PlainRead(env, body, p[..k]) && NoWayBack(body, p, k)
    decreases |p|
  {
    if p != [] {
      var n := |p| - 1;
      var q := p[..n];
      assert p == q + [p[n]];
      AtExtends(env, body, AsStatement, q, p[n]);
      AtNode(env, body, AsStatement, q);
      var above := At(env, body, AsStatement, q).value;
      PartSlot(env, above.node, above.mode, p[n]);
      PartIff(env, body, q);
      if At(env, body, AsStatement, p).value.mode.AsPart? {
        if above.mode.AsPart? && Passes(body, q) {
          var k :| 0 <= k < n && PlainRead(env, body, q[..k]) && NoWayBack(body, q, k);
          WayStep(body, p, k);
          assert PlainRead(env, body, p[..k]) && NoWayBack(body, p, k);
        } else {
          assert PlainRead(env, body, p[..n]) && NoWayBack(body, p, n);
        }
      }
      if k :| 0 <= k < n && PlainRead(env, body, p[..k]) && NoWayBack(body, p, k) {
        WayStep(body, p, k);
        assert PlainRead(env, body, q[..k]) && NoWayBack(body, q, k);
      }
    }
  }

  lemma {:induction false} WayStep(body: Node, p: Place, k: nat)
    requires k < |p| - 1
    ensures p[..|p| - 1][..k] == p[..k]
    ensures NoWayBack(body, p, k) <==> NoWayBack(body, p[..|p| - 1], k) && Passes(body, p[..|p| - 1])
  {
    var q := p[..|p| - 1];
    assert forall j | 0 <= j <= |q| :: p[..j] == q[..j];
  }

  // ---------- How a place is come across, by the shape of the tree alone ----------

  /** What a call calls. */
  ghost predicate Callee(body: Node, p: Place) {
    p != [] && p[|p| - 1] == 0 &&
    var above := NodeAt(body, p[..|p| - 1]);
    above.Some? && above.value.Call?
  }

  /** Where a statement belongs: the body itself, the body of a function literal, or a statement inside another. */
  ghost predicate StatementPlace(body: Node, p: Place) {
    p == [] ||
    var above, i := NodeAt(body, p[..|p| - 1]), p[|p| - 1];
    above.Some? && ((above.value.FuncLit? && i == 1) || (IsStatement(above.value) && Nested(above.value, i)))
  }

  /** A node without a case of its own that is no statement in its place. */
  ghost predicate Inert(body: Node, p: Place) {
    var node := NodeAt(body, p);
    node.Some? && IsPlain(node.value) && !(IsStatement(node.value) && StatementPlace(body, p))
  }

  /** Such a node stands above the place, with no call and no selector in between. */
  ghost predicate UnderPlain(body: Node, p: Place) {
    exists k :: 0 <= k < |p| && Inert(body, p[..k]) && NoWayBack(body, p, k)
  }

  /** Child i of the node at q is passed over: what is below a callee that is neither a selector nor a literal, the
      package name of an imported member, the type of a literal and the label of a statement. */
  ghost predicate Skips(env: Env, body: Node, q: Place, i: nat) {
    var node := NodeAt(body, q);
    node.Some? &&
    match node.value
    case Selector(x, _) => Imported(env, x) && !Callee(body, q)
    case FuncLit(_, _) => i == 0 && !UnderPlain(body, q)
    case Labeled(_, _) => Callee(body, q) || (i == 0 && StatementPlace(body, q) && !UnderPlain(body, q))
    case _ => Callee(body, q)
  }

  /** Something above the place passes over what leads to it. */
  ghost predicate PassedOver(env: Env, body: Node, p: Place) {
    exists k :: 0 <= k < |p| && Skips(env, body, p[..k], p[k])
  }

  /** The node at the end of a place, from the one above it. */
  lemma {:induction false} LastStep(env: Env, body: Node, p: Place)
    requires p != [] && At(env, body, AsStatement, p).Some?
    ensures var q, i := p[..|p| - 1], p[|p| - 1];
            var above := At(env, body, AsStatement, q);
            && above.Some? && NodeAt(body, q) == Some(above.value.node) && i < |Kids(above.value.node)|
            && At(env, body, AsStatement, p).value ==
               Spot(Kids(above.value.node)[i], Slot(env, above.value.node, above.value.mode, i))
  {
    var q, i := p[..|p| - 1], p[|p| - 1];
    assert p == q + [i];
    AtExtends(env, body, AsStatement, q, i);
    AtNode(env, body, AsStatement, q);
  }

  /** Where callees and statements are, by their modes. */
  lemma {:induction false} ModeOfPlace(env: Env, body: Node, p: Place)
    requires At(env, body, AsStatement, p).Some?
    ensures var mode := At(env, body, AsStatement, p).value.mode;
            && (Callee(body, p) ==> mode.AsCallee? || mode.AsNothing?)
            && (mode.AsCallee? ==> Callee(body, p))
            && (StatementPlace(body, p) ==> mode.AsStatement? || mode.AsPart? || mode.AsNothing?)
            && (mode.AsStatement? ==> StatementPlace(body, p))
  {
    if p != [] {
      LastStep(env, body, p);
      var above := At(env, body, AsStatement, p[..|p| - 1]).value;
      SlotShape(env, above.node, above.mode, p[|p| - 1]);
    }
  }

  lemma {:induction false} SlotShape(env: Env, n: Node, mode: Mode, i: nat)
    requires i < |Kids(n)|
    ensures var slot := Slot(env, n, mode, i);
            var place := (n.FuncLit? && i == 1) || (IsStatement(n) && Nested(n, i));
            && (n.Call? && i == 0 ==> slot.AsCallee? || slot.AsNothing?)
            && (slot.AsCallee? ==> n.Call? && i == 0)
            && (place ==> slot.AsStatement? || slot.AsPart? || slot.AsNothing?)
            && (slot.AsStatement? ==> place)
  {
  }

  /** Below what is passed over everything is. */
  lemma {:induction false} NothingBelow(env: Env, body: Node, p: Place, k: nat)
    requires k <= |p| && At(env, body, AsStatement, p).Some?
    ensures At(env, body, AsStatement, p[..k]).Some?
    ensures At(env, body, AsStatement, p[..k]).value.mode.AsNothing? ==>
              At(env, body, AsStatement, p).value.mode.AsNothing?
    decreases |p|
  {
    if k == |p| {
      assert p[..k] == p;
    } else {
      LastStep(env, body, p);
      NothingBelow(env, body, p[..|p| - 1], k);
      assert p[..|p| - 1][..k] == p[..k];
    }
  }

  /** A node without a case of its own is read as a whole if and only if it is inert, not passed over, no callee and not
      itself part of a plain read. */
  lemma {:induction false} PlainOnShape(env: Env, body: Node, q: Place)
    requires At(env, body, AsStatement, q).Some?
    ensures var mode := At(env, body, AsStatement, q).value.mode;
            PlainRead(env, body, q) <==>
            Inert(body, q) && !mode.AsNothing? && !mode.AsCallee? && !mode.AsPart?
  {
    AtNode(env, body, AsStatement, q);
    ModeOfPlace(env, body, q);
  }

  /** What is not passed over is part of a plain read if and only if it is under a plain node. */
  lemma {:induction false} PartOnShape(env: Env, body: Node, p: Place)
    requires At(env, body, AsStatement, p).Some? && !At(env, body, AsStatement, p).value.mode.AsNothing?
    ensures At(env, body, AsStatement, p).value.mode.AsPart? <==> UnderPlain(body, p)
  {
    PartIff(env, body, p);
    forall k | 0 <= k < |p| && Inert(body, p[..k]) && NoWayBack(body, p, k)
      ensures At(env, body, AsStatement, p).value.mode.AsPart?
    {
      InertIsPart(env, body, p, k);
    }
    forall k | 0 <= k < |p| && PlainRead(env, body, p[..k])
      ensures Inert(body, p[..k])
    {
      PlainOnShape(env, body, p[..k]);
    }
  }

  lemma {:induction false} InertIsPart(env: Env, body: Node, p: Place, k: nat)
    requires At(env, body, AsStatement, p).Some? && !At(env, body, AsStatement, p).value.mode.AsNothing?
    requires k < |p| && Inert(body, p[..k]) && NoWayBack(body, p, k)
    ensures At(env, body, AsStatement, p).value.mode.AsPart?
  {
    var q := p[..k];
    PartIff(env, body, p);
    NothingBelow(env, body, p, k);
    NothingBelow(env, body, p, k + 1);
    LastStep(env, body, p[..k + 1]);
    assert p[..k + 1][..k] == q;
    PlainOnShape(env, body, q);
    if At(env, body, AsStatement, q).value.mode.AsPart? {
      PartIff(env, body, q);
      var l :| 0 <= l < |q| && PlainRead(env, body, q[..l]) && NoWayBack(body, q, l);
      WayThrough(body, p, k, l);
      assert PlainRead(env, body, p[..l]);
    }
  }

  lemma {:induction false} WayThrough(body: Node, p: Place, k: nat, l: nat)
    requires l < k < |p| && NoWayBack(body, p[..k], l) && Inert(body, p[..k]) && NoWayBack(body, p, k)
    ensures NoWayBack(body, p, l) && p[..k][..l] == p[..l]
  {
    forall j | l < j < |p| ensures Passes(body, p[..j]) {
      if j < k {
        assert p[..k][..j] == p[..j];
      }
    }
  }

  /** Which children are passed over, by the mode of the node. */
  lemma {:induction false} NothingSlot(env: Env, n: Node, mode: Mode, i: nat)
    requires i < |Kids(n)|
    ensures Slot(env, n, mode, i).AsNothing? <==>
            || mode.AsNothing?
            || (n.Selector? && Imported(env, n.x) && !mode.AsCallee?)
            || (n.FuncLit? && i == 0 && !mode.AsPart?)
            || (n.Labeled? && i == 0 && mode.AsStatement?)
            || (mode.AsCallee? && !n.Selector? && !n.FuncLit?)
  {
  }

  /** For a node that is not passed over itself, its shape and place decide. */
  lemma {:induction false} SkipsHere(env: Env, body: Node, q: Place, i: nat)
    requires At(env, body, AsStatement, q).Some?
    requires var spot := At(env, body, AsStatement, q).value; !spot.mode.AsNothing? && i < |Kids(spot.node)|
    ensures var spot := At(env, body, AsStatement, q).value;
            Slot(env, spot.node, spot.mode, i).AsNothing? <==> Skips(env, body, q, i)
  {
    var spot := At(env, body, AsStatement, q).value;
    AtNode(env, body, AsStatement, q);
    NothingSlot(env, spot.node, spot.mode, i);
    ModeOfPlace(env, body, q);
    PartOnShape(env, body, q);
  }

  lemma {:induction false} PassedOverStep(env: Env, body: Node, p: Place)
    requires p != []
    ensures PassedOver(env, body, p) <==>
            PassedOver(env, body, p[..|p| - 1]) || Skips(env, body, p[..|p| - 1], p[|p| - 1])
  {
    var q := p[..|p| - 1];
    assert forall k | 0 <= k < |q| :: p[..k] == q[..k] && p[k] == q[k];
    if k :| 0 <= k < |q| && Skips(env, body, q[..k], q[k]) {
      assert Skips(env, body, p[..k], p[k]);
    }
    if k :| 0 <= k < |p| && Skips(env, body, p[..k], p[k]) {
      assert k < |q| ==> Skips(env, body, q[..k], q[k]);
    }
  }

  /** A place is passed over if and only if something above it skips what leads to it. */
  lemma {:induction false} SkippedIff(env: Env, body: Node, p: Place)
    requires At(env, body, AsStatement, p).Some?
    ensures At(env, body, AsStatement, p).value.mode.AsNothing? <==> PassedOver(env, body, p)
    decreases |p|
  {
    if p != [] {
      var n := |p| - 1;
      var q := p[..n];
      LastStep(env, body, p);
      SkippedIff(env, body, q);
      PassedOverStep(env, body, p);
      if !At(env, body, AsStatement, q).value.mode.AsNothing? {
        SkipsHere(env, body, q, p[n]);
      }
    }
  }

  /** The place is where statements belong, not under a plain node and not passed over. */
  ghost predicate Walked(env: Env, body: Node, p: Place) {
    StatementPlace(body, p) && !UnderPlain(body, p) && !PassedOver(env, body, p)
  }

  /** Exactly at those places `walk` is called. */
  lemma {:induction false} WalkedIff(env: Env, body: Node, p: Place)
    requires At(env, body, AsStatement, p).Some?
    ensures At(env, body, AsStatement, p).value.mode.AsStatement? <==> Walked(env, body, p)
  {
    SkippedIff(env, body, p);
    ModeOfPlace(env, body, p);
    if !At(env, body, AsStatement, p).value.mode.AsNothing? {
      PartOnShape(env, body, p);
    }
  }

  // ---------- What is written and what is read ----------

  /** The statement at p, wherever it stands, assigns to the plain name x, its child i. */
  ghost predicate AssignmentAt(body: Node, p: Place, i: nat, x: string) {
    var node := NodeAt(body, p);
    node.Some? && Assigned(node.value, i) && i < |Kids(node.value)| && Kids(node.value)[i] == Ident(x)
  }

  /** And `walk` gets there. */
  ghost predicate AssignsAt(env: Env, body: Node, p: Place, i: nat, x: string) {
    AssignmentAt(body, p, i, x) && Walked(env, body, p)
  }

  lemma {:induction false} OwnWrite(env: Env, n: Node, mode: Mode, x: string)
    ensures Own(env, n, mode) == Some(Write(x)) <==> mode.AsTarget? && n == Ident(x)
  {
  }

  lemma {:induction false} TargetSlot(env: Env, n: Node, mode: Mode, i: nat)
    ensures Slot(env, n, mode, i).AsTarget? <==> mode.AsStatement? && Assigned(n, i)
  {
  }

  /** A place is come across as a target if and only if the statement above it is walked and assigns to it. */
  lemma {:induction false} TargetIff(env: Env, body: Node, p: Place, i: nat)
    requires At(env, body, AsStatement, p + [i]).Some?
    ensures NodeAt(body, p).Some? && i < |Kids(NodeAt(body, p).value)|
    ensures At(env, body, AsStatement, p + [i]).value.mode.AsTarget? <==>
            Assigned(NodeAt(body, p).value, i) && Walked(env, body, p)
    ensures At(env, body, AsStatement, p + [i]).value.node == Kids(NodeAt(body, p).value)[i]
  {
    AtExtends(env, body, AsStatement, p, i);
    AtNode(env, body, AsStatement, p);
    var above := At(env, body, AsStatement, p).value;
    TargetSlot(env, above.node, above.mode, i);
    WalkedIff(env, body, p);
  }

  /** The forms of an assignment: a target of `=` or an operator with `=`, of `++` or `--`, or of a range with `=`. */
  lemma {:induction false} AssignmentForms(body: Node, p: Place, i: nat, x: string)
    ensures AssignmentAt(body, p, i, x) <==>
            match NodeAt(body, p)
            case Some(Assign(define, lhs, _)) => !define && i < |lhs| && lhs[i] == Ident(x)
            case Some(IncDec(y)) => i == 0 && y == Ident(x)
            case Some(Range(assigns, key, value, _, _)) =>
              assigns && ((i == 0 && key == Ident(x)) || (i == 1 && value == Ident(x)))
            case _ => false
  {
  }

  /** An assignment to a plain name is reported as a write if and only if it stands where statements belong, is not
      under a plain node and is not passed over. */
  lemma {:induction false} WriteIsAssigned(env: Env, body: Node, p: Place, i: nat, x: string)
    ensures ReportedAt(env, body, AsStatement, p + [i], Write(x)) <==> AssignsAt(env, body, p, i, x)
  {
    AtExtends(env, body, AsStatement, p, i);
    AtNode(env, body, AsStatement, p);
    var kid := At(env, body, AsStatement, p + [i]);
    if kid.Some? {
      TargetIff(env, body, p, i);
      OwnWrite(env, kid.value.node, kid.value.mode, x);
    }
  }

  lemma {:induction false} RootIsNotWritten(env: Env, body: Node, x: string)
    ensures !ReportedAt(env, body, AsStatement, [], Write(x))
  {
    OwnWrite(env, body, AsStatement, x);
  }

  /** A body writes x if and only if an assignment to the plain name x is walked. */
  lemma {:induction false} WritesIff(env: Env, body: Node, x: string)
    ensures Write(x) in Stream(env, body, AsStatement) <==> exists p, i :: AssignsAt(env, body, p, i, x)
  {
    InStreamIff(env, body, AsStatement, Write(x));
    RootIsNotWritten(env, body, x);
    forall p: Place, i: nat
      ensures ReportedAt(env, body, AsStatement, p + [i], Write(x)) <==> AssignsAt(env, body, p, i, x)
    {
      WriteIsAssigned(env, body, p, i, x);
    }
    if p :| ReportedAt(env, body, AsStatement, p, Write(x)) {
      assert p == p[..|p| - 1] + [p[|p| - 1]];
      assert AssignsAt(env, body, p[..|p| - 1], p[|p| - 1], x);
    }
  }

  /** The node at p is read as r: a plain name that is not assigned to there, a name of an imported package, or the
      field or method a selector picks, with the type of its base. It is no callee and not passed over. */
  ghost predicate ReadsAt(env: Env, body: Node, p: Place, r: Report) {
    var node := NodeAt(body, p);
    node.Some? && !PassedOver(env, body, p) && !Callee(body, p) &&
    match node.value
    case Ident(name) => r == Read(name, "") && !TargetAt(env, body, p, name)
    case Selector(x, sel) =>
      r == if Imported(env, x) then Read(x.name + "." + sel, "") else Read(sel, BaseTypeOf(env, x))
    case _ => false
  }

  ghost predicate TargetAt(env: Env, body: Node, p: Place, x: string) {
    p != [] && AssignsAt(env, body, p[..|p| - 1], p[|p| - 1], x)
  }

  /** And a body reads r if and only if some name or selector stands for it. */
  lemma {:induction false} ReadsIff(env: Env, body: Node, name: string, baseType: string)
    ensures Read(name, baseType) in Stream(env, body, AsStatement) <==>
            exists p :: ReadsAt(env, body, p, Read(name, baseType))
  {
    var r := Read(name, baseType);
    InStreamIff(env, body, AsStatement, r);
    forall p ensures ReportedAt(env, body, AsStatement, p, r) <==> ReadsAt(env, body, p, r) {
      ReadIsRead(env, body, p, name, baseType);
    }
  }

  lemma {:induction false} OwnRead(env: Env, n: Node, mode: Mode, name: string, baseType: string)
    ensures Own(env, n, mode) == Some(Read(name, baseType)) <==>
            && !mode.AsNothing? && !mode.AsCallee? && !(mode.AsTarget? && n.Ident?)
            && match n
               case Ident(x) => Read(name, baseType) == Read(x, "")
               case Selector(x, sel) =>
                 Read(name, baseType) ==
                 if Imported(env, x) then Read(x.name + "." + sel, "") else Read(sel, BaseTypeOf(env, x))
               case _ => false
  {
  }

  lemma {:induction false} ReadIsRead(env: Env, body: Node, p: Place, name: string, baseType: string)
    ensures ReportedAt(env, body, AsStatement, p, Read(name, baseType)) <==>
            ReadsAt(env, body, p, Read(name, baseType))
  {
    var spot := At(env, body, AsStatement, p);
    AtNode(env, body, AsStatement, p);
    if spot.Some? {
      OwnRead(env, spot.value.node, spot.value.mode, name, baseType);
      SkippedIff(env, body, p);
      ModeOfPlace(env, body, p);
      if spot.value.node.Ident? {
        TargetOnShape(env, body, p, spot.value.node.name);
      }
    }
  }

  lemma {:induction false} TargetOnShape(env: Env, body: Node, p: Place, x: string)
    requires At(env, body, AsStatement, p).Some? && NodeAt(body, p) == Some(Ident(x))
    ensures At(env, body, AsStatement, p).value.mode.AsTarget? <==> TargetAt(env, body, p, x)
  {
    AtNode(env, body, AsStatement, p);
    if p != [] {
      assert p == p[..|p| - 1] + [p[|p| - 1]];
      TargetIff(env, body, p[..|p| - 1], p[|p| - 1]);
    }
  }

  // ---------- What selectors report ----------

  /** A member of an imported package is one read under its qualified name; any other selector on a name reads the name
      and the member, the latter with the type of the name. */
  lemma {:induction false} SelectorReports(env: Env, x: string, sel: string)
    ensures x in env.importPkgs ==> Stream(env, Selector(Ident(x), sel), AsRead) == [Read(x + "." + sel, "")]
    ensures x !in env.importPkgs && x !in env.varTypes ==>
              Stream(env, Selector(Ident(x), sel), AsRead) == [Read(x, ""), Read(sel, "")]
    ensures x !in env.importPkgs && x in env.varTypes ==>
              Stream(env, Selector(Ident(x), sel), AsRead) == [Read(x, ""), Read(sel, StructBase(env.varTypes[x]))]
  {
    var n := Selector(Ident(x), sel);
    assert Kids(n) == [Ident(x)];
    assert Below(env, n, AsRead, 0) == [];
    assert Below(env, n, AsRead, 1) == Stream(env, Ident(x), Slot(env, n, AsRead, 0));
    if x !in env.importPkgs {
      LeafReports(env, Ident(x), AsRead);
    }
  }

  /** No blank, bracket, star, angle, dash or slash. */
  ghost predicate IsPlainType(t: string) { t != "" && forall c | c in t :: c !in " \t[]{}()*<>-/" }

  lemma {:induction false} TypeNameIff(t: string)
    ensures IsTypeName(t) <==> forall c | c in t :: c !in " \t[]{}()*<>-/"
    decreases |t|
  {
    if t != [] {
      TypeNameIff(t[1..]);
      assert forall c :: c in t <==> c == t[0] || c in t[1..];
      assert IsTypePunctuation(t[0]) <==> t[0] in " \t[]{}()*<>-/";
    }
  }

  /** The base of a plain type name, and of a pointer to one, is that name; any other type has none. */
  lemma {:induction false} StructBaseIs(t: string)
    ensures IsPlainType(t) ==> StructBase(t) == t && StructBase("*" + t) == t
    ensures !IsPlainType(t) && !(|t| > 1 && t[0] == '*' && IsPlainType(t[1..])) ==> StructBase(t) == ""
  {
    TypeNameIff(t);
    assert ("*" + t)[1..] == t;
    assert IsPlainType(t) ==> t[0] in t;
    if t != [] && t[0] == '*' {
      TypeNameIff(t[1..]);
    }
  }

  // ---------- Assignments that are no writes ----------

  /** The reports of a node with one child that reports nothing itself. */
  lemma {:induction false} OnlyKid(env: Env, n: Node, mode: Mode)
    requires |Kids(n)| == 1 && Own(env, n, mode).None? && !mode.AsNothing?
    ensures Stream(env, n, mode) == Stream(env, Kids(n)[0], Slot(env, n, mode, 0))
  {
    assert Below(env, n, mode, 0) == [];
    assert Below(env, n, mode, 1) == Stream(env, Kids(n)[0], Slot(env, n, mode, 0));
  }

  /** And of one with two children. */
  lemma {:induction false} TwoKids(env: Env, n: Node, mode: Mode)
    requires |Kids(n)| == 2 && Own(env, n, mode).None? && !mode.AsNothing?
    ensures Stream(env, n, mode)
         == Stream(env, Kids(n)[0], Slot(env, n, mode, 0)) + Stream(env, Kids(n)[1], Slot(env, n, mode, 1))
  {
    assert Below(env, n, mode, 0) == [];
    assert Below(env, n, mode, 1) == Stream(env, Kids(n)[0], Slot(env, n, mode, 0));
    assert Below(env, n, mode, 2) == Below(env, n, mode, 1) + Stream(env, Kids(n)[1], Slot(env, n, mode, 1));
  }

  /** `x = v` where the literal v mentions no name. */
  function Setting(x: string): Node { Assign(false, [Ident(x)], [Other([])]) }

  lemma {:induction false} LeafReports(env: Env, n: Node, mode: Mode)
    requires Kids(n) == [] && !mode.AsNothing?
    ensures Stream(env, n, mode) == OwnReports(env, n, mode)
  {
  }

  lemma {:induction false} SettingReports(env: Env, x: string, mode: Mode)
    requires mode.AsStatement? || mode.AsPart?
    ensures Stream(env, Setting(x), mode) == [if mode.AsStatement? then Write(x) else Read(x, "")]
  {
    var n := Setting(x);
    assert Kids(n) == [Ident(x), Other([])];
    TwoKids(env, n, mode);
    LeafReports(env, Ident(x), Slot(env, n, mode, 0));
    LeafReports(env, Other([]), Slot(env, n, mode, 1));
  }

  /** `func() { x = v }`. */
  function Closure(x: string): Node { FuncLit(Nil, Block([Setting(x)])) }

  lemma {:induction false} ClosureReports(env: Env, x: string, mode: Mode)
    requires mode.AsCallee? || mode.AsPart?
    ensures Stream(env, Closure(x), mode) == [if mode.AsCallee? then Write(x) else Read(x, "")]
  {
    var closure := Closure(x);
    var block := closure.body;
    assert Kids(closure) == [Nil, block] && Kids(block) == [Setting(x)];
    var inner := Slot(env, closure, mode, 1);
    TwoKids(env, closure, mode);
    assert Stream(env, Nil, Slot(env, closure, mode, 0)) == [];
    OnlyKid(env, block, inner);
    SettingReports(env, x, inner);
  }

  /** A closure that is returned has its assignments reported as reads; one that is called in place has them
      reported as writes. So an assignment is not always a write. */
  lemma {:induction false} ReturnedClosureReads(env: Env, x: string)
    ensures Stream(env, Other([Closure(x)]), AsStatement) == [Read(x, "")]
    ensures Stream(env, Other([Call(Closure(x), [])]), AsStatement) == [Write(x)]
  {
    var closure, call := Closure(x), Call(Closure(x), []);
    OnlyKid(env, Other([closure]), AsStatement);
    ClosureReports(env, x, AsPart);
    OnlyKid(env, Other([call]), AsStatement);
    OnlyKid(env, call, AsPart);
    ClosureReports(env, x, AsCallee);
  }

  /** What a call passes over as its callee reports nothing. */
  lemma {:induction false} CalleeReports(env: Env, fun: Node, mode: Mode)
    requires !fun.Selector? && !fun.FuncLit? && (mode.AsRead? || mode.AsPart?)
    ensures Stream(env, Call(fun, []), mode) == []
  {
    var call := Call(fun, []);
    assert Kids(call) == [fun] && Slot(env, call, mode, 0) == AsCallee;
    OnlyKid(env, call, mode);
    SilentStream(env, fun);
  }

  lemma {:induction false} SilentStream(env: Env, fun: Node)
    requires !fun.Selector? && !fun.FuncLit?
    ensures Stream(env, fun, AsCallee) == []
  {
    SilentCallee(env, fun, |Kids(fun)|);
  }

  lemma {:induction false} SilentCallee(env: Env, fun: Node, i: nat)
    requires i <= |Kids(fun)| && !fun.Selector? && !fun.FuncLit?
    ensures Below(env, fun, AsCallee, i) == []
    decreases i
  {
    if i > 0 {
      SilentCallee(env, fun, i - 1);
    }
  }

  /** `(func() { x = v })()` and `wrap(func() { x = v })()`, the usual shape of a deferred call, report nothing at all:
      the callee is neither a selector nor a literal, so the closure in it is passed over. */
  lemma {:induction false} WrappedClosureSilent(env: Env, x: string, wrap: string)
    ensures Stream(env, Other([Call(Other([Closure(x)]), [])]), AsStatement) == []
    ensures Stream(env, Other([Call(Call(Ident(wrap), [Closure(x)]), [])]), AsStatement) == []
  {
    var paren, wrapped := Other([Closure(x)]), Call(Ident(wrap), [Closure(x)]);
    CalleeReports(env, paren, AsPart);
    CalleeReports(env, wrapped, AsPart);
    OnlyKid(env, Other([Call(paren, [])]), AsStatement);
    OnlyKid(env, Other([Call(wrapped, [])]), AsStatement);
  }
}
