/** The READS and WRITES edges of a Go function body: `extractGoReads` of internal/ast/extractor.go. The walker
    is proved against the report stream of `GoSyntax`, and the edges against the stream. */
module GoReads {
  import opened Collections
  import opened GoSyntax

  // ---------- What the edges say about the stream ----------

  datatype EdgeKind = READS | WRITES
  datatype Edge = Edge(from: string, to: string, kind: EdgeKind, baseType: string)

  function KindOf(r: Report): EdgeKind { if r.Read? then READS else WRITES }

  /** Predeclared names never count, and neither does the bare name of a local. */
  predicate Accepted(env: Env, r: Report) {
    r.name !in env.predeclared && !(r.Read? && r.baseType == "" && '.' !in r.name && r.name in env.varTypes)
  }

  /** A write counts unless its name is predeclared. A read counts unless, besides, it is the bare and untyped name of a
      local. */
  lemma {:induction false} AcceptedForms(env: Env, x: string, baseType: string)
    ensures Accepted(env, Write(x)) <==> x !in env.predeclared
    ensures Accepted(env, Read(x, baseType)) <==>
            x !in env.predeclared && (baseType != "" || '.' in x || x !in env.varTypes)
  {
  }

  /** The type of a name: the first non-empty one among its accepted reads. */
  ghost function FirstType(env: Env, reports: seq<Report>, name: string): string {
    if reports == [] then ""
    else
      var before, last := FirstType(env, reports[..|reports| - 1], name), reports[|reports| - 1];
      if before == "" && last.Read? && last.name == name && Accepted(env, last) then last.baseType else before
  }

  /** The edge a report stands for, once the whole stream is known. */
  ghost function EdgeOf(env: Env, reports: seq<Report>, r: Report): Edge {
    Edge(env.callerQN, r.name, KindOf(r), if r.Read? then FirstType(env, reports, r.name) else "")
  }

  predicate SameKey(a: Report, b: Report) { a.Read? == b.Read? && a.name == b.name }

  /** The first accepted report of its kind and name. */
  ghost predicate IsHead(env: Env, reports: seq<Report>, i: int) {
    && 0 <= i < |reports| && Accepted(env, reports[i])
    && forall j | 0 <= j < i :: !(Accepted(env, reports[j]) && SameKey(reports[j], reports[i]))
  }

  /** One edge per first accepted report, in stream order. */
  ghost predicate Summarises(env: Env, reports: seq<Report>, edges: seq<Edge>, heads: seq<int>) {
    && |edges| == |heads|
    && (forall a, b | 0 <= a < b < |heads| :: heads[a] < heads[b])
    && (forall i :: i in heads <==> IsHead(env, reports, i))
    && (forall a | 0 <= a < |heads| ::
          IsHead(env, reports, heads[a]) && edges[a] == EdgeOf(env, reports, reports[heads[a]]))
  }

  lemma {:induction false} TypeStep(env: Env, reports: seq<Report>, r: Report, name: string)
    ensures FirstType(env, reports + [r], name)
         == if FirstType(env, reports, name) == "" && r.Read? && r.name == name && Accepted(env, r) then r.baseType
            else FirstType(env, reports, name)
  {
    assert (reports + [r])[..|reports|] == reports;
  }

  lemma {:induction false} UnreadHasNoType(env: Env, reports: seq<Report>, name: string)
    requires forall i | 0 <= i < |reports| ::
               !(reports[i].Read? && reports[i].name == name && Accepted(env, reports[i]))
    ensures FirstType(env, reports, name) == ""
  {
    if reports != [] {
      UnreadHasNoType(env, reports[..|reports| - 1], name);
    }
  }

  lemma {:induction false} HeadStep(env: Env, reports: seq<Report>, r: Report)
    ensures forall i | 0 <= i < |reports| :: IsHead(env, reports + [r], i) <==> IsHead(env, reports, i)
    ensures IsHead(env, reports + [r], |reports|) <==>
            Accepted(env, r) && forall j | 0 <= j < |reports| :: !(Accepted(env, reports[j]) && SameKey(reports[j], r))
  {
    var grown := reports + [r];
    assert forall i | 0 <= i < |reports| :: grown[i] == reports[i];
    assert grown[|reports|] == r;
  }

  /** Each key has a head if any report of it was accepted. */
  lemma {:induction false} HeadExists(env: Env, reports: seq<Report>, r: Report, i: nat) returns (h: nat)
    requires i < |reports| && Accepted(env, reports[i]) && SameKey(reports[i], r)
    ensures h <= i && IsHead(env, reports, h) && SameKey(reports[h], r)
    decreases i
  {
    if j :| 0 <= j < i && Accepted(env, reports[j]) && SameKey(reports[j], reports[i]) {
      h := HeadExists(env, reports, r, j);
    } else {
      h := i;
    }
  }

  /** The edges: each name at most once as READS and once as WRITES, exactly the names of accepted reports,
      a read typed by the first accepted read that knows a type, in order of first acceptance. */
  lemma {:induction false} SummaryMeans(env: Env, reports: seq<Report>, edges: seq<Edge>, heads: seq<int>)
    requires Summarises(env, reports, edges, heads)
    ensures forall a, b | 0 <= a < b < |edges| :: !(edges[a].kind == edges[b].kind && edges[a].to == edges[b].to)
    ensures forall r | r in reports && Accepted(env, r) :: EdgeOf(env, reports, r) in edges
    ensures forall e | e in edges :: exists r :: r in reports && Accepted(env, r) && e == EdgeOf(env, reports, r)
  {
    forall a, b | 0 <= a < b < |edges|
      ensures !(edges[a].kind == edges[b].kind && edges[a].to == edges[b].to)
    {
      assert IsHead(env, reports, heads[b]) && !SameKey(reports[heads[a]], reports[heads[b]]);
    }
    forall r | r in reports && Accepted(env, r)
      ensures EdgeOf(env, reports, r) in edges
    {
      var i :| 0 <= i < |reports| && reports[i] == r;
      var h := HeadExists(env, reports, r, i);
      var a :| 0 <= a < |heads| && heads[a] == h;
      assert edges[a] == EdgeOf(env, reports, r);
    }
    forall e | e in edges
      ensures exists r :: r in reports && Accepted(env, r) && e == EdgeOf(env, reports, r)
    {
      var a :| 0 <= a < |edges| && edges[a] == e;
      assert reports[heads[a]] in reports;
    }
  }

  // ---------- One more report ----------

  ghost predicate HasKey(e: Edge, r: Report) { e.kind == KindOf(r) && e.to == r.name }

  lemma {:induction false} KnownKey(env: Env, reports: seq<Report>, edges: seq<Edge>, heads: seq<int>, r: Report)
    requires Summarises(env, reports, edges, heads)
    ensures (exists a :: 0 <= a < |edges| && HasKey(edges[a], r))
       <==> (exists j :: 0 <= j < |reports| && Accepted(env, reports[j]) && SameKey(reports[j], r))
  {
    if a :| 0 <= a < |edges| && HasKey(edges[a], r) {
      assert IsHead(env, reports, heads[a]) && SameKey(reports[heads[a]], r);
    }
    if j :| 0 <= j < |reports| && Accepted(env, reports[j]) && SameKey(reports[j], r) {
      var h := HeadExists(env, reports, r, j);
      var a :| 0 <= a < |heads| && heads[a] == h;
      assert HasKey(edges[a], r);
    }
  }

  /** A report that is not accepted, or repeats a key and adds no type, leaves the edges alone. */
  lemma {:induction false} SameEdges(env: Env, reports: seq<Report>, edges: seq<Edge>, heads: seq<int>, r: Report)
    requires Summarises(env, reports, edges, heads)
    requires Accepted(env, r) ==>
               exists a :: 0 <= a < |edges| && HasKey(edges[a], r) &&
                 (r.Write? || r.baseType == "" || edges[a].baseType != "")
    ensures Summarises(env, reports + [r], edges, heads)
  {
    KnownKey(env, reports, edges, heads, r);
    HeadStep(env, reports, r);
    forall a | 0 <= a < |heads|
      ensures edges[a] == EdgeOf(env, reports + [r], reports[heads[a]])
    {
      TypeStep(env, reports, r, reports[heads[a]].name);
      if Accepted(env, r) && HasKey(edges[a], r) {
        UniqueKey(env, reports, edges, heads, r);
      }
    }
  }

  lemma {:induction false} UniqueKey(env: Env, reports: seq<Report>, edges: seq<Edge>, heads: seq<int>, r: Report)
    requires Summarises(env, reports, edges, heads)
    ensures forall a, b | 0 <= a < |edges| && 0 <= b < |edges| && HasKey(edges[a], r) && HasKey(edges[b], r) :: a == b
  {
    SummaryMeans(env, reports, edges, heads);
  }

  /** The first typed read of a name types its edge. */
  lemma {:induction false} TypedEdge(env: Env, reports: seq<Report>, edges: seq<Edge>, heads: seq<int>, r: Report,
                                     a: nat)
    requires Summarises(env, reports, edges, heads) && Accepted(env, r) && r.Read?
    requires a < |edges| && HasKey(edges[a], r) && edges[a].baseType == ""
    ensures Summarises(env, reports + [r], edges[a := edges[a].(baseType := r.baseType)], heads)
  {
    KnownKey(env, reports, edges, heads, r);
    UniqueKey(env, reports, edges, heads, r);
    HeadStep(env, reports, r);
    forall b | 0 <= b < |heads|
      ensures edges[a := edges[a].(baseType := r.baseType)][b] == EdgeOf(env, reports + [r], reports[heads[b]])
    {
      TypeStep(env, reports, r, reports[heads[b]].name);
    }
  }

  /** The first accepted report of a key appends its edge. */
  lemma {:induction false} NewEdge(env: Env, reports: seq<Report>, edges: seq<Edge>, heads: seq<int>, r: Report)
    requires Summarises(env, reports, edges, heads) && Accepted(env, r)
    requires forall a | 0 <= a < |edges| :: !HasKey(edges[a], r)
    ensures Summarises(env, reports + [r],
                       edges + [Edge(env.callerQN, r.name, KindOf(r), if r.Read? then r.baseType else "")],
                       heads + [|reports|])
  {
    KnownKey(env, reports, edges, heads, r);
    HeadStep(env, reports, r);
    forall b | 0 <= b < |heads|
      ensures edges[b] == EdgeOf(env, reports + [r], reports[heads[b]])
    {
      TypeStep(env, reports, r, reports[heads[b]].name);
    }
    if r.Read? {
      UnreadHasNoType(env, reports, r.name);
      TypeStep(env, reports, r, r.name);
    }
  }

  // ---------- The walker ----------

  /** `seenReads` finds the READS edge of each name that has one, `seenWrites` holds the names of WRITES edges. */
  ghost predicate Indexed(edges: seq<Edge>, seenReads: map<string, nat>, seenWrites: set<string>) {
    && (forall name | name in seenReads ::
          seenReads[name] < |edges| && edges[seenReads[name]].kind == READS && edges[seenReads[name]].to == name)
    && (forall a | 0 <= a < |edges| && edges[a].kind == READS :: edges[a].to in seenReads)
    && (forall a | 0 <= a < |edges| && edges[a].kind == WRITES :: edges[a].to in seenWrites)
    && (forall name | name in seenWrites ::
          exists a :: 0 <= a < |edges| && edges[a].kind == WRITES && edges[a].to == name)
  }

  lemma {:induction false} IndexedAppend(edges: seq<Edge>, seenReads: map<string, nat>, seenWrites: set<string>,
                                         e: Edge)
    requires Indexed(edges, seenReads, seenWrites)
    ensures e.kind == READS ==> Indexed(edges + [e], seenReads[e.to := |edges|], seenWrites)
    ensures e.kind == WRITES ==> Indexed(edges + [e], seenReads, seenWrites + {e.to})
  {
    var grown := edges + [e];
    assert forall a | 0 <= a < |edges| :: grown[a] == edges[a];
    assert grown[|edges|] == e;
    forall name | name in seenWrites
      ensures exists a :: 0 <= a < |grown| && grown[a].kind == WRITES && grown[a].to == name
    {
      var a :| 0 <= a < |edges| && edges[a].kind == WRITES && edges[a].to == name;
      assert grown[a] == edges[a];
    }
  }

  lemma {:induction false} IndexedRetype(edges: seq<Edge>, seenReads: map<string, nat>, seenWrites: set<string>,
                                         i: nat, baseType: string)
    requires Indexed(edges, seenReads, seenWrites) && i < |edges|
    ensures Indexed(edges[i := edges[i].(baseType := baseType)], seenReads, seenWrites)
  {
    var retyped := edges[i := edges[i].(baseType := baseType)];
    forall name | name in seenWrites
      ensures exists a :: 0 <= a < |retyped| && retyped[a].kind == WRITES && retyped[a].to == name
    {
      var a :| 0 <= a < |edges| && edges[a].kind == WRITES && edges[a].to == name;
      assert retyped[a].kind == edges[a].kind && retyped[a].to == edges[a].to;
    }
  }

  /** The walker's state. */
  datatype Log = Log(edges: seq<Edge>, seenReads: map<string, nat>, seenWrites: set<string>)

  /** The state after one more report. */
  function Emit(env: Env, log: Log, r: Report): Log {
    var e := Edge(env.callerQN, r.name, KindOf(r), if r.Read? then r.baseType else "");
    if !Accepted(env, r) then log
    else if r.Write? then
      if r.name in log.seenWrites then log
      else log.(edges := log.edges + [e], seenWrites := log.seenWrites + {r.name})
    else if r.name in log.seenReads then Retype(log, log.seenReads[r.name], r.baseType)
    else log.(edges := log.edges + [e], seenReads := log.seenReads[r.name := |log.edges|])
  }

  /** A type upgrades an untyped edge. */
  function Retype(log: Log, i: nat, baseType: string): Log {
    if i < |log.edges| && baseType != "" && log.edges[i].baseType == "" then
      log.(edges := log.edges[i := log.edges[i].(baseType := baseType)])
    else log
  }

  /** The state after a stream of reports. */
  function LogOf(env: Env, reports: seq<Report>): Log {
    if reports == [] then Log([], map[], {})
    else Emit(env, LogOf(env, reports[..|reports| - 1]), reports[|reports| - 1])
  }

  lemma {:induction false} EmitKeepsIndex(env: Env, log: Log, r: Report)
    requires Indexed(log.edges, log.seenReads, log.seenWrites)
    ensures var log' := Emit(env, log, r); Indexed(log'.edges, log'.seenReads, log'.seenWrites)
  {
    IndexedAppend(log.edges, log.seenReads, log.seenWrites,
                  Edge(env.callerQN, r.name, KindOf(r), if r.Read? then r.baseType else ""));
    if r.Read? && r.name in log.seenReads {
      IndexedRetype(log.edges, log.seenReads, log.seenWrites, log.seenReads[r.name], r.baseType);
    }
  }

  /** Along every stream `seenReads` points at the READS edge of each name that has one. */
  lemma {:induction false} LogIndexed(env: Env, reports: seq<Report>)
    ensures var log := LogOf(env, reports); Indexed(log.edges, log.seenReads, log.seenWrites)
  {
    if reports != [] {
      LogIndexed(env, reports[..|reports| - 1]);
      EmitKeepsIndex(env, LogOf(env, reports[..|reports| - 1]), reports[|reports| - 1]);
    }
  }

  lemma {:induction false} LogStep(env: Env, reports: seq<Report>, r: Report)
    ensures LogOf(env, reports + [r]) == Emit(env, LogOf(env, reports), r)
  {
    assert (reports + [r])[..|reports|] == reports;
  }

  /** Whatever the stream, the state's edges summarise it. */
  lemma {:induction false} LogSummarises(env: Env, reports: seq<Report>) returns (heads: seq<int>)
    ensures Summarises(env, reports, LogOf(env, reports).edges, heads)
  {
    if reports == [] {
      heads := [];
    } else {
      var before, r := reports[..|reports| - 1], reports[|reports| - 1];
      heads := LogSummarises(env, before);
      LogIndexed(env, before);
      assert reports == before + [r];
      heads := EmitSummarises(env, before, LogOf(env, before), heads, r);
    }
  }

  lemma {:induction false} EmitSummarises(env: Env, reports: seq<Report>, log: Log, heads: seq<int>, r: Report)
    returns (heads': seq<int>)
    requires Indexed(log.edges, log.seenReads, log.seenWrites) && Summarises(env, reports, log.edges, heads)
    ensures Summarises(env, reports + [r], Emit(env, log, r).edges, heads')
  {
    if !Accepted(env, r) {
      SameEdges(env, reports, log.edges, heads, r);
      heads' := heads;
    } else if r.Read? && r.name in log.seenReads {
      var i := log.seenReads[r.name];
      assert HasKey(log.edges[i], r);
      if r.baseType != "" && log.edges[i].baseType == "" {
        TypedEdge(env, reports, log.edges, heads, r, i);
      } else {
        SameEdges(env, reports, log.edges, heads, r);
      }
      heads' := heads;
    } else if r.Write? && r.name in log.seenWrites {
      SameEdges(env, reports, log.edges, heads, r);
      heads' := heads;
    } else {
      NewEdge(env, reports, log.edges, heads, r);
      heads' := heads + [|reports|];
    }
  }

  // ---------- The stream as it grows ----------

  /** The reports once a tree has been walked, on top of those there were. */
  function After(env: Env, acc: seq<Report>, n: Node, mode: Mode): seq<Report>
    decreases n, |Kids(n)| + 1
  {
    if mode.AsNothing? then acc else Told(AfterKids(env, acc, n, mode, |Kids(n)|), Own(env, n, mode))
  }

  function Told(acc: seq<Report>, own: Option<Report>): seq<Report> { if own.Some? then acc + [own.value] else acc }

  function AfterKids(env: Env, acc: seq<Report>, n: Node, mode: Mode, i: nat): seq<Report>
    requires i <= |Kids(n)|
    decreases n, i
  {
    if i == 0 then acc
    else
      KidSmaller(n, i - 1);
      After(env, AfterKids(env, acc, n, mode, i - 1), Kids(n)[i - 1], Slot(env, n, mode, i - 1))
  }

  /** One child more, as a function of the reports before it. */
  lemma {:induction false} AfterKidsStep(env: Env, acc: seq<Report>, n: Node, mode: Mode, i: nat)
    requires i < |Kids(n)|
    ensures AfterKids(env, acc, n, mode, i + 1)
         == After(env, AfterKids(env, acc, n, mode, i), Kids(n)[i], Slot(env, n, mode, i))
  {
  }

  /** Walking a tree adds its stream to whatever was reported before. */
  lemma {:induction false} AfterIsStream(env: Env, acc: seq<Report>, n: Node, mode: Mode)
    ensures After(env, acc, n, mode) == acc + Stream(env, n, mode)
    decreases n, |Kids(n)| + 1
  {
    if !mode.AsNothing? {
      AfterKidsIsBelow(env, acc, n, mode, |Kids(n)|);
    }
  }

  lemma {:induction false} AfterKidsIsBelow(env: Env, acc: seq<Report>, n: Node, mode: Mode, i: nat)
    requires i <= |Kids(n)|
    ensures AfterKids(env, acc, n, mode, i) == acc + Below(env, n, mode, i)
    decreases n, i
  {
    if i > 0 {
      AfterKidsIsBelow(env, acc, n, mode, i - 1);
      KidSmaller(n, i - 1);
      AfterIsStream(env, acc + Below(env, n, mode, i - 1), Kids(n)[i - 1], Slot(env, n, mode, i - 1));
      AfterKidIsBelow(env, acc, n, mode, i - 1);
    }
  }

  lemma {:induction false} AfterKidIsBelow(env: Env, acc: seq<Report>, n: Node, mode: Mode, i: nat)
    requires i < |Kids(n)| && AfterKids(env, acc, n, mode, i) == acc + Below(env, n, mode, i)
    requires var kid, slot, before := Kids(n)[i], Slot(env, n, mode, i), acc + Below(env, n, mode, i);
             After(env, before, kid, slot) == before + Stream(env, kid, slot)
    ensures AfterKids(env, acc, n, mode, i + 1) == acc + Below(env, n, mode, i + 1)
  {
    AfterKidsStep(env, acc, n, mode, i);
    BelowNext(env, n, mode, i);
    AppendTwice(acc, Below(env, n, mode, i), Stream(env, Kids(n)[i], Slot(env, n, mode, i)));
  }

  lemma {:induction false} BelowNext(env: Env, n: Node, mode: Mode, i: nat)
    requires i < |Kids(n)|
    ensures Below(env, n, mode, i + 1)
         == Below(env, n, mode, i) + Stream(env, Kids(n)[i], Slot(env, n, mode, i))
  {
  }

  lemma {:induction false} AppendTwice(a: seq<Report>, b: seq<Report>, c: seq<Report>)
    ensures (a + b) + c == a + (b + c)
  {
  }

  /** A list of nodes, all come across in one way. */
  function AfterList(env: Env, acc: seq<Report>, ns: seq<Node>, mode: Mode, i: nat): seq<Report>
    requires i <= |ns|
  {
    if i == 0 then acc else After(env, AfterList(env, acc, ns, mode, i - 1), ns[i - 1], mode)
  }

  lemma {:induction false} AfterListStep(env: Env, acc: seq<Report>, ns: seq<Node>, mode: Mode, i: nat)
    requires i < |ns|
    ensures AfterList(env, acc, ns, mode, i + 1) == After(env, AfterList(env, acc, ns, mode, i), ns[i], mode)
  {
  }

  /** From child k on, the children of n are ns, and come across in the given way. */
  ghost predicate Run(env: Env, n: Node, mode: Mode, ns: seq<Node>, k: nat, slot: Mode) {
    && k + |ns| <= |Kids(n)| && Kids(n)[k..k + |ns|] == ns
    && forall i | k <= i < k + |ns| :: Slot(env, n, mode, i) == slot
  }

  lemma {:induction false} RunAt(env: Env, n: Node, mode: Mode, ns: seq<Node>, k: nat, slot: Mode, i: nat)
    requires Run(env, n, mode, ns, k, slot) && i < |ns|
    ensures k + i < |Kids(n)| && Kids(n)[k + i] == ns[i] && Slot(env, n, mode, k + i) == slot
  {
    assert ns[i] == Kids(n)[k..k + |ns|][i] == Kids(n)[k + i];
  }

  lemma {:induction false} AfterRun(env: Env, acc: seq<Report>, n: Node, mode: Mode, ns: seq<Node>, k: nat, slot: Mode,
                                    i: nat)
    requires Run(env, n, mode, ns, k, slot) && i <= |ns|
    ensures AfterKids(env, acc, n, mode, k + i)
         == AfterList(env, AfterKids(env, acc, n, mode, k), ns, slot, i)
    decreases i
  {
    if i > 0 {
      AfterRun(env, acc, n, mode, ns, k, slot, i - 1);
      AfterRunStep(env, acc, n, mode, ns, k, slot, i - 1, AfterKids(env, acc, n, mode, k));
    }
  }

  lemma {:induction false} AfterRunStep(env: Env, acc: seq<Report>, n: Node, mode: Mode, ns: seq<Node>, k: nat,
                                        slot: Mode, i: nat, first: seq<Report>)
    requires Run(env, n, mode, ns, k, slot) && i < |ns|
    requires AfterKids(env, acc, n, mode, k + i) == AfterList(env, first, ns, slot, i)
    ensures AfterKids(env, acc, n, mode, k + i + 1) == AfterList(env, first, ns, slot, i + 1)
  {
    RunAt(env, n, mode, ns, k, slot, i);
    AfterKidsStep(env, acc, n, mode, k + i);
    AfterListStep(env, first, ns, slot, i);
  }

  lemma {:induction false} AfterFirst(env: Env, acc: seq<Report>, n: Node, mode: Mode)
    requires Kids(n) != []
    ensures AfterKids(env, acc, n, mode, 1) == After(env, acc, Kids(n)[0], Slot(env, n, mode, 0))
  {
    assert AfterKids(env, acc, n, mode, 0) == acc;
  }

  // Expressions.

  /** A node without children. */
  lemma {:induction false} AfterLeaf(env: Env, acc: seq<Report>, n: Node, mode: Mode)
    requires (n.Nil? || n.Ident?) && !mode.AsNothing?
    ensures After(env, acc, n, mode) == Told(acc, Own(env, n, mode))
  {
  }

  lemma {:induction false} AfterSelector(env: Env, acc: seq<Report>, n: Node)
    requires n.Selector?
    ensures After(env, acc, n, AsRead) ==
            if Imported(env, n.x) then acc + [Read(n.x.name + "." + n.sel, "")]
            else After(env, acc, n.x, AsRead) + [Read(n.sel, BaseTypeOf(env, n.x))]
  {
    AfterFirst(env, acc, n, AsRead);
  }

  /** A function literal reports what walking its body does. */
  lemma {:induction false} AfterLiteral(env: Env, acc: seq<Report>, n: Node, mode: Mode)
    requires n.FuncLit? && (mode.AsRead? || mode.AsCallee?)
    ensures After(env, acc, n, mode) == After(env, acc, n.body, AsStatement)
  {
    AfterFirst(env, acc, n, mode);
    assert AfterKids(env, acc, n, mode, 1) == acc;
  }

  /** What is called reports its receiver, or the body of a literal, and nothing else. */
  lemma {:induction false} AfterCallee(env: Env, acc: seq<Report>, fun: Node)
    ensures After(env, acc, fun, AsCallee) == if fun.Selector? then After(env, acc, fun.x, AsRead)
                                              else if fun.FuncLit? then After(env, acc, fun.body, AsStatement)
                                              else acc
  {
    if fun.FuncLit? {
      AfterLiteral(env, acc, fun, AsCallee);
    } else if fun.Selector? {
      AfterFirst(env, acc, fun, AsCallee);
    } else {
      AfterNothing(env, acc, fun, |Kids(fun)|);
    }
  }

  lemma {:induction false} AfterNothing(env: Env, acc: seq<Report>, n: Node, i: nat)
    requires i <= |Kids(n)| && !n.Selector? && !n.FuncLit?
    ensures AfterKids(env, acc, n, AsCallee, i) == acc
    decreases i
  {
    if i > 0 {
      AfterNothing(env, acc, n, i - 1);
    }
  }

  /** A call reports its callee, then its arguments. */
  lemma {:induction false} AfterCall(env: Env, acc: seq<Report>, n: Node)
    requires n.Call?
    ensures After(env, acc, n, AsRead)
         == AfterList(env, After(env, acc, n.fun, AsCallee), n.args, AsRead, |n.args|)
  {
    AfterFirst(env, acc, n, AsRead);
    assert Kids(n)[1..1 + |n.args|] == n.args;
    AfterRun(env, acc, n, AsRead, n.args, 1, AsRead, |n.args|);
  }

  /** A plain read reports all its children. */
  lemma {:induction false} AfterPlain(env: Env, acc: seq<Report>, n: Node, mode: Mode)
    requires (mode.AsRead? && IsPlain(n)) || (mode.AsPart? && !n.Ident? && !n.Call? && !n.Selector?)
    ensures After(env, acc, n, mode) == AfterList(env, acc, Kids(n), AsPart, |Kids(n)|)
  {
    PlainRun(env, n, mode);
    AfterSilent(env, acc, n, mode);
    AfterRun(env, acc, n, mode, Kids(n), 0, AsPart, |Kids(n)|);
  }

  lemma {:induction false} PlainRun(env: Env, n: Node, mode: Mode)
    requires (mode.AsRead? && IsPlain(n)) || (mode.AsPart? && !n.Ident? && !n.Call? && !n.Selector?)
    ensures Run(env, n, mode, Kids(n), 0, AsPart) && Own(env, n, mode).None?
  {
    assert Kids(n)[0..0 + |Kids(n)|] == Kids(n);
  }

  /** A node that reports nothing itself. */
  lemma {:induction false} AfterSilent(env: Env, acc: seq<Report>, n: Node, mode: Mode)
    requires Own(env, n, mode).None? && !mode.AsNothing?
    ensures After(env, acc, n, mode) == AfterKids(env, acc, n, mode, |Kids(n)|)
    ensures AfterKids(env, acc, n, mode, 0) == acc
  {
  }

  /** What one way of coming across a node makes of it, another that settles alike does too. */
  lemma {:induction false} AfterSettled(env: Env, acc: seq<Report>, n: Node, a: Mode, b: Mode)
    requires Settle(a, n) == Settle(b, n) && !a.AsNothing? && !b.AsNothing?
    ensures After(env, acc, n, a) == After(env, acc, n, b)
  {
    AfterKidsSettled(env, acc, n, a, b, |Kids(n)|);
  }

  lemma {:induction false} AfterKidsSettled(env: Env, acc: seq<Report>, n: Node, a: Mode, b: Mode, i: nat)
    requires i <= |Kids(n)| && Settle(a, n) == Settle(b, n)
    ensures AfterKids(env, acc, n, a, i) == AfterKids(env, acc, n, b, i)
    decreases i
  {
    if i > 0 {
      AfterKidsSettled(env, acc, n, a, b, i - 1);
    }
  }

  /** A node of any other kind is read by reading all its children as parts, in order, and so is it as a part. */
  lemma {:induction false} AfterOther(env: Env, acc: seq<Report>, children: seq<Node>)
    ensures After(env, acc, Other(children), AsRead) == AfterList(env, acc, children, AsPart, |children|)
    ensures After(env, acc, Other(children), AsPart) == AfterList(env, acc, children, AsPart, |children|)
    ensures After(env, acc, Other(children), AsStatement) == AfterList(env, acc, children, AsPart, |children|)
  {
    AfterPlain(env, acc, Other(children), AsRead);
    AfterPlain(env, acc, Other(children), AsPart);
    AfterSettled(env, acc, Other(children), AsStatement, AsRead);
  }

  /** Names, calls and selectors are read as parts just as they are on their own. */
  lemma {:induction false} AfterPart(env: Env, acc: seq<Report>, n: Node)
    requires n.Ident? || n.Call? || n.Selector?
    ensures After(env, acc, n, AsPart) == After(env, acc, n, AsRead)
  {
    AfterSettled(env, acc, n, AsPart, AsRead);
  }

  // Statements with a fixed number of children.

  function TargetMode(isWrite: bool): Mode { if isWrite then AsTarget else AsRead }

  lemma {:induction false} AfterStatement(env: Env, acc: seq<Report>, n: Node)
    requires IsStatement(n)
    ensures After(env, acc, n, AsStatement) == AfterKids(env, acc, n, AsStatement, |Kids(n)|)
    ensures AfterKids(env, acc, n, AsStatement, 0) == acc
  {
  }

  lemma {:induction false} AfterIf(env: Env, acc: seq<Report>, n: Node)
    requires n.If?
    ensures var a := After(env, acc, n.init, AsStatement);
            var b := After(env, a, n.cond, AsRead);
            var c := After(env, b, n.body, AsStatement);
            After(env, acc, n, AsStatement) == After(env, c, n.els, AsStatement)
  {
    AfterStatement(env, acc, n);
    AfterKidsStep(env, acc, n, AsStatement, 0);
    AfterKidsStep(env, acc, n, AsStatement, 1);
    AfterKidsStep(env, acc, n, AsStatement, 2);
    AfterKidsStep(env, acc, n, AsStatement, 3);
  }

  lemma {:induction false} AfterFor(env: Env, acc: seq<Report>, n: Node)
    requires n.For?
    ensures var a := After(env, acc, n.init, AsStatement);
            var b := After(env, a, n.cond, AsRead);
            var c := After(env, b, n.post, AsStatement);
            After(env, acc, n, AsStatement) == After(env, c, n.body, AsStatement)
  {
    AfterStatement(env, acc, n);
    AfterKidsStep(env, acc, n, AsStatement, 0);
    AfterKidsStep(env, acc, n, AsStatement, 1);
    AfterKidsStep(env, acc, n, AsStatement, 2);
    AfterKidsStep(env, acc, n, AsStatement, 3);
  }

  lemma {:induction false} AfterRange(env: Env, acc: seq<Report>, n: Node)
    requires n.Range?
    ensures var a := After(env, acc, n.key, TargetMode(n.assigns));
            var b := After(env, a, n.value, TargetMode(n.assigns));
            var c := After(env, b, n.x, AsRead);
            After(env, acc, n, AsStatement) == After(env, c, n.body, AsStatement)
  {
    AfterStatement(env, acc, n);
    AfterKidsStep(env, acc, n, AsStatement, 0);
    AfterKidsStep(env, acc, n, AsStatement, 1);
    AfterKidsStep(env, acc, n, AsStatement, 2);
    AfterKidsStep(env, acc, n, AsStatement, 3);
  }

  lemma {:induction false} AfterSwitch(env: Env, acc: seq<Report>, n: Node)
    requires n.Switch?
    ensures var a := After(env, acc, n.init, AsStatement);
            var b := After(env, a, n.tag, AsRead);
            After(env, acc, n, AsStatement) == After(env, b, n.body, AsStatement)
  {
    AfterStatement(env, acc, n);
    AfterKidsStep(env, acc, n, AsStatement, 0);
    AfterKidsStep(env, acc, n, AsStatement, 1);
    AfterKidsStep(env, acc, n, AsStatement, 2);
  }

  lemma {:induction false} AfterTypeSwitch(env: Env, acc: seq<Report>, n: Node)
    requires n.TypeSwitch?
    ensures var a := After(env, acc, n.init, AsStatement);
            var b := After(env, a, n.assign, AsStatement);
            After(env, acc, n, AsStatement) == After(env, b, n.body, AsStatement)
  {
    AfterStatement(env, acc, n);
    AfterKidsStep(env, acc, n, AsStatement, 0);
    AfterKidsStep(env, acc, n, AsStatement, 1);
    AfterKidsStep(env, acc, n, AsStatement, 2);
  }

  lemma {:induction false} AfterOneKid(env: Env, acc: seq<Report>, n: Node)
    requires n.Select? || n.Labeled? || n.IncDec?
    ensures After(env, acc, n, AsStatement)
         == if n.Select? then After(env, acc, n.body, AsStatement)
            else if n.Labeled? then After(env, acc, n.stmt, AsStatement)
            else After(env, acc, n.x, AsTarget)
  {
    AfterStatement(env, acc, n);
    AfterKidsStep(env, acc, n, AsStatement, 0);
    if n.Labeled? {
      AfterKidsStep(env, acc, n, AsStatement, 1);
    }
  }

  // Statements with lists of children.

  lemma {:induction false} AfterBlock(env: Env, acc: seq<Report>, n: Node)
    requires n.Block?
    ensures After(env, acc, n, AsStatement) == AfterList(env, acc, n.list, AsStatement, |n.list|)
  {
    assert Kids(n)[0..0 + |n.list|] == n.list;
    AfterStatement(env, acc, n);
    AfterRun(env, acc, n, AsStatement, n.list, 0, AsStatement, |n.list|);
  }

  /** Two runs of children, one after the other. */
  lemma {:induction false} AfterTwoRuns(env: Env, acc: seq<Report>, n: Node, first: seq<Node>, slot1: Mode,
                                        second: seq<Node>, slot2: Mode)
    requires IsStatement(n) && |Kids(n)| == |first| + |second|
    requires Run(env, n, AsStatement, first, 0, slot1) && Run(env, n, AsStatement, second, |first|, slot2)
    ensures After(env, acc, n, AsStatement)
         == AfterList(env, AfterList(env, acc, first, slot1, |first|), second, slot2, |second|)
  {
    AfterStatement(env, acc, n);
    AfterRun(env, acc, n, AsStatement, first, 0, slot1, |first|);
    AfterRun(env, acc, n, AsStatement, second, |first|, slot2, |second|);
  }

  lemma {:induction false} AfterCase(env: Env, acc: seq<Report>, n: Node)
    requires n.CaseClause?
    ensures After(env, acc, n, AsStatement)
         == AfterList(env, AfterList(env, acc, n.exprs, AsRead, |n.exprs|), n.stmts, AsStatement, |n.stmts|)
  {
    assert Kids(n)[0..0 + |n.exprs|] == n.exprs;
    assert Kids(n)[|n.exprs|..|n.exprs| + |n.stmts|] == n.stmts;
    AfterTwoRuns(env, acc, n, n.exprs, AsRead, n.stmts, AsStatement);
  }

  lemma {:induction false} AfterComm(env: Env, acc: seq<Report>, n: Node)
    requires n.CommClause?
    ensures After(env, acc, n, AsStatement)
         == AfterList(env, After(env, acc, n.comm, AsStatement), n.stmts, AsStatement, |n.stmts|)
  {
    assert Kids(n)[1..1 + |n.stmts|] == n.stmts;
    AfterStatement(env, acc, n);
    AfterFirst(env, acc, n, AsStatement);
    AfterRun(env, acc, n, AsStatement, n.stmts, 1, AsStatement, |n.stmts|);
  }

  lemma {:induction false} AfterAssign(env: Env, acc: seq<Report>, n: Node)
    requires n.Assign?
    ensures After(env, acc, n, AsStatement)
         == AfterList(env, AfterList(env, acc, n.lhs, TargetMode(!n.define), |n.lhs|), n.rhs, AsRead, |n.rhs|)
  {
    assert Kids(n)[0..0 + |n.lhs|] == n.lhs;
    assert Kids(n)[|n.lhs|..|n.lhs| + |n.rhs|] == n.rhs;
    AfterTwoRuns(env, acc, n, n.lhs, TargetMode(!n.define), n.rhs, AsRead);
  }

  class Collector {
    const env: Env
    var edges: seq<Edge>
    var seenReads: map<string, nat>
    var seenWrites: set<string>
    ghost var reports: seq<Report>

    /** The state is the one its reports lead to. */
    ghost predicate Valid()
      reads this
    {
      Log(edges, seenReads, seenWrites) == LogOf(env, reports)
    }

    constructor (env: Env)
      ensures Valid() && this.env == env && reports == []
    {
      this.env, edges, seenReads, seenWrites, reports := env, [], map[], {}, [];
    }

    method EmitWrite(name: string)
      requires Valid()
      modifies this
      ensures Valid() && reports == old(reports) + [Write(name)]
    {
      LogStep(env, reports, Write(name));
      reports := reports + [Write(name)];
      if name in env.predeclared || name in seenWrites {
        return;
      }
      seenWrites := seenWrites + {name};
      edges := edges + [Edge(env.callerQN, name, WRITES, "")];
    }

    method EmitRead(name: string, baseType: string)
      requires Valid()
      modifies this
      ensures Valid() && reports == old(reports) + [Read(name, baseType)]
    {
      LogStep(env, reports, Read(name, baseType));
      reports := reports + [Read(name, baseType)];
      if name in env.predeclared {
        return;
      }
      if baseType == "" && '.' !in name && name in env.varTypes {
        return;
      }
      if name in seenReads {
        var idx := seenReads[name];
        assert idx < |edges| by { LogIndexed(env, old(reports)); }
        if baseType != "" && edges[idx].baseType == "" {
          edges := edges[idx := edges[idx].(baseType := baseType)];
        }
        return;
      }
      seenReads := seenReads[name := |edges|];
      edges := edges + [Edge(env.callerQN, name, READS, baseType)];
    }

    /** `walkRead`. */
    method WalkRead(n: Node)
      requires Valid()
      modifies this
      ensures Valid() && reports == After(env, old(reports), n, AsRead)
      ensures reports == old(reports) + Stream(env, n, AsRead)
      decreases n, 2
    {
      AfterIsStream(env, reports, n, AsRead);
      match n {
        case Nil => AfterLeaf(env, reports, n, AsRead);
        case Ident(name) =>
          AfterLeaf(env, reports, n, AsRead);
          EmitRead(name, "");
        case Call(fun, args) =>
          AfterCall(env, reports, n);
          AfterCallee(env, reports, fun);
          if fun.Selector? {
            WalkRead(fun.x);
          }
          if fun.FuncLit? {
            Walk(fun.body);
          }
          WalkReads(args);
        case FuncLit(_, body) =>
          AfterLiteral(env, reports, n, AsRead);
          Walk(body);
        case Selector(x, sel) =>
          AfterSelector(env, reports, n);
          if x.Ident? && x.name in env.importPkgs {
            EmitRead(x.name + "." + sel, "");
          } else {
            WalkRead(x);
            EmitRead(sel, BaseTypeOf(env, x));
          }
        case _ => InspectChildren(n, AsRead);
      }
    }

    method WalkReads(ns: seq<Node>)
      requires Valid()
      modifies this
      ensures Valid() && reports == AfterList(env, old(reports), ns, AsRead, |ns|)
      decreases ns, 0
    {
      ghost var before := reports;
      for i := 0 to |ns|
        invariant Valid() && reports == AfterList(env, before, ns, AsRead, i)
      {
        ghost var last := reports;
        AfterListStep(env, before, ns, AsRead, i);
        WalkRead(ns[i]);
        assert reports == After(env, last, ns[i], AsRead);
      }
    }

    /** The `ast.Inspect` callback below the root of a plain read. */
    method Inspect(n: Node)
      requires Valid()
      modifies this
      ensures Valid() && reports == After(env, old(reports), n, AsPart)
      ensures reports == old(reports) + Stream(env, n, AsPart)
      decreases n, 3
    {
      AfterIsStream(env, reports, n, AsPart);
      match n {
        case Nil => AfterLeaf(env, reports, n, AsPart);
        case Ident(name) =>
          AfterLeaf(env, reports, n, AsPart);
          EmitRead(name, "");
        case Call(_, _) =>
          AfterSettled(env, reports, n, AsPart, AsRead);
          WalkRead(n);
        case Selector(_, _) =>
          AfterSettled(env, reports, n, AsPart, AsRead);
          WalkRead(n);
        case _ => InspectChildren(n, AsPart);
      }
    }

    /** `ast.Inspect`'s own traversal of the children. */
    method InspectChildren(n: Node, ghost mode: Mode)
      requires Valid()
      requires (mode.AsRead? && IsPlain(n)) || (mode.AsPart? && !n.Ident? && !n.Call? && !n.Selector?)
      modifies this
      ensures Valid() && reports == After(env, old(reports), n, mode)
      decreases n, 1
    {
      AfterPlain(env, reports, n, mode);
      var kids := Kids(n);
      for i := 0 to |kids|
        invariant Valid() && reports == AfterList(env, old(reports), kids, AsPart, i)
      {
        KidSmaller(n, i);
        AfterListStep(env, old(reports), kids, AsPart, i);
        Inspect(kids[i]);
      }
    }

    /** `walk`. */
    method Walk(n: Node)
      requires Valid()
      modifies this
      ensures Valid() && reports == After(env, old(reports), n, AsStatement)
      ensures reports == old(reports) + Stream(env, n, AsStatement)
      decreases n, 4
    {
      AfterIsStream(env, reports, n, AsStatement);
      match n {
        case Assign(define, lhs, rhs) =>
          AfterAssign(env, reports, n);
          WalkTargets(lhs, !define);
          WalkReads(rhs);
        case IncDec(x) =>
          AfterOneKid(env, reports, n);
          WalkTarget(x, true);
        case Block(list) =>
          AfterBlock(env, reports, n);
          WalkStatements(list);
        case If(init, cond, body, els) =>
          AfterIf(env, reports, n);
          Walk(init);
          WalkRead(cond);
          Walk(body);
          Walk(els);
        case For(init, cond, post, body) =>
          AfterFor(env, reports, n);
          Walk(init);
          WalkRead(cond);
          Walk(post);
          Walk(body);
        case Range(assigns, key, value, x, body) =>
          AfterRange(env, reports, n);
          WalkTarget(key, assigns);
          WalkTarget(value, assigns);
          WalkRead(x);
          Walk(body);
        case Switch(init, tag, body) =>
          AfterSwitch(env, reports, n);
          Walk(init);
          WalkRead(tag);
          Walk(body);
        case TypeSwitch(init, assign, body) =>
          AfterTypeSwitch(env, reports, n);
          Walk(init);
          Walk(assign);
          Walk(body);
        case Select(body) =>
          AfterOneKid(env, reports, n);
          Walk(body);
        case CaseClause(exprs, stmts) =>
          AfterCase(env, reports, n);
          WalkReads(exprs);
          WalkStatements(stmts);
        case CommClause(comm, stmts) =>
          AfterComm(env, reports, n);
          Walk(comm);
          WalkStatements(stmts);
        case Labeled(_, stmt) =>
          AfterOneKid(env, reports, n);
          Walk(stmt);
        case _ =>
          AfterSettled(env, reports, n, AsStatement, AsRead);
          WalkRead(n);
      }
    }

    method WalkTargets(ns: seq<Node>, isWrite: bool)
      requires Valid()
      modifies this
      ensures Valid() && reports == AfterList(env, old(reports), ns, TargetMode(isWrite), |ns|)
      decreases ns, 0
    {
      ghost var before := reports;
      for i := 0 to |ns|
        invariant Valid() && reports == AfterList(env, before, ns, TargetMode(isWrite), i)
      {
        AfterListStep(env, before, ns, TargetMode(isWrite), i);
        WalkTarget(ns[i], isWrite);
      }
    }

    /** A place that is assigned to: a plain name is written, anything else is read. */
    method WalkTarget(n: Node, isWrite: bool)
      requires Valid()
      modifies this
      ensures Valid() && reports == After(env, old(reports), n, TargetMode(isWrite))
      decreases n, 3
    {
      if n.Ident? && isWrite {
        AfterLeaf(env, reports, n, AsTarget);
        EmitWrite(n.name);
      } else {
        AfterSettled(env, reports, n, TargetMode(isWrite), AsRead);
        WalkRead(n);
      }
    }

    method WalkStatements(ns: seq<Node>)
      requires Valid()
      modifies this
      ensures Valid() && reports == AfterList(env, old(reports), ns, AsStatement, |ns|)
      decreases ns, 0
    {
      ghost var before := reports;
      for i := 0 to |ns|
        invariant Valid() && reports == AfterList(env, before, ns, AsStatement, i)
      {
        ghost var last := reports;
        AfterListStep(env, before, ns, AsStatement, i);
        Walk(ns[i]);
        assert reports == After(env, last, ns[i], AsStatement);
      }
    }
  }

  // ---------- The edges and the body ----------

  ghost predicate HasEdge(edges: seq<Edge>, kind: EdgeKind, x: string) {
    exists e :: e in edges && e.kind == kind && e.to == x
  }

  lemma {:induction false} EdgeIff(env: Env, reports: seq<Report>, edges: seq<Edge>, heads: seq<int>, kind: EdgeKind,
                                   x: string)
    requires Summarises(env, reports, edges, heads)
    ensures HasEdge(edges, kind, x) <==>
            exists r :: r in reports && Accepted(env, r) && KindOf(r) == kind && r.name == x
  {
    SummaryMeans(env, reports, edges, heads);
    if r :| r in reports && Accepted(env, r) && KindOf(r) == kind && r.name == x {
      assert EdgeOf(env, reports, r) in edges;
    }
  }

  lemma {:induction false} WritesEdgeIff(env: Env, body: Node, edges: seq<Edge>, heads: seq<int>, x: string)
    requires Summarises(env, Stream(env, body, AsStatement), edges, heads)
    ensures HasEdge(edges, WRITES, x) <==> x !in env.predeclared && exists p, i :: AssignsAt(env, body, p, i, x)
  {
    EdgeIff(env, Stream(env, body, AsStatement), edges, heads, WRITES, x);
    WritesIff(env, body, x);
    assert forall r: Report | KindOf(r) == WRITES && r.name == x :: r == Write(x);
    AcceptedForms(env, x, "");
  }

  lemma {:induction false} ReadsEdgeIff(env: Env, body: Node, edges: seq<Edge>, heads: seq<int>, x: string)
    requires Summarises(env, Stream(env, body, AsStatement), edges, heads)
    ensures HasEdge(edges, READS, x) <==>
            x !in env.predeclared &&
            exists p, t :: ReadsAt(env, body, p, Read(x, t)) && (t != "" || '.' in x || x !in env.varTypes)
  {
    var reports := Stream(env, body, AsStatement);
    EdgeIff(env, reports, edges, heads, READS, x);
    forall t
      ensures Read(x, t) in reports <==> exists p :: ReadsAt(env, body, p, Read(x, t))
      ensures Accepted(env, Read(x, t)) <==> x !in env.predeclared && (t != "" || '.' in x || x !in env.varTypes)
    {
      ReadsIff(env, body, x, t);
      AcceptedForms(env, x, t);
    }
    if HasEdge(edges, READS, x) {
      var r :| r in reports && Accepted(env, r) && KindOf(r) == READS && r.name == x;
      assert r == Read(x, r.baseType);
    }
  }

  // ---------- The type of an edge ----------

  /** Report i is the first of the typed reads of x, which are those with the type t. */
  ghost predicate FirstTyped(reports: seq<Report>, x: string, t: string, i: int) {
    && 0 <= i < |reports| && reports[i] == Read(x, t) && t != ""
    && forall j | 0 <= j < i && reports[j].Read? && reports[j].name == x :: reports[j].baseType == ""
  }

  lemma {:induction false} FirstTypeIs(env: Env, reports: seq<Report>, x: string)
    requires x !in env.predeclared
    ensures var t := FirstType(env, reports, x);
            if t == "" then forall r | r in reports && r.Read? && r.name == x :: r.baseType == ""
            else exists i :: FirstTyped(reports, x, t, i)
    decreases |reports|
  {
    if reports != [] {
      var n := |reports| - 1;
      var before, last := reports[..n], reports[n];
      FirstTypeIs(env, before, x);
      assert reports == before + [last];
      if last.Read? && last.name == x {
        AcceptedForms(env, x, last.baseType);
        assert last == Read(x, last.baseType);
      }
      var t := FirstType(env, before, x);
      if t != "" {
        var i :| FirstTyped(before, x, t, i);
        assert FirstTyped(reports, x, t, i);
      } else if last.Read? && last.name == x && last.baseType != "" {
        assert forall j | 0 <= j < n :: reports[j] in before;
        assert FirstTyped(reports, x, last.baseType, n);
      }
    }
  }

  /** The place p is the first at which x is read with a type, and t is that type. */
  ghost predicate TypedFirstAt(env: Env, body: Node, p: Place, x: string, t: string) {
    && t != "" && ReadsAt(env, body, p, Read(x, t))
    && forall q, u | ReadsAt(env, body, q, Read(x, u)) && u != "" :: q == p || Before(p, q)
  }

  /** In terms of the body: an edge without a type has only untyped reads, and one with a type has that of the first
      typed read. */
  lemma {:induction false} FirstTypeInBody(env: Env, body: Node, x: string)
    requires x !in env.predeclared
    ensures var t := FirstType(env, Stream(env, body, AsStatement), x);
            if t == "" then forall p, u | ReadsAt(env, body, p, Read(x, u)) :: u == ""
            else exists p :: TypedFirstAt(env, body, p, x, t)
  {
    var reports := Stream(env, body, AsStatement);
    var t := FirstType(env, reports, x);
    FirstTypeIs(env, reports, x);
    if t == "" {
      forall p, u | ReadsAt(env, body, p, Read(x, u)) ensures u == "" {
        ReadsIff(env, body, x, u);
        assert Read(x, u) in reports;
      }
    } else {
      var i :| FirstTyped(reports, x, t, i);
      var places := StreamPlaces(env, body, AsStatement);
      FirstTypedPlace(env, body, x, t, i, places);
      assert TypedFirstAt(env, body, places[i], x, t);
    }
  }

  lemma {:induction false} FirstTypedPlace(env: Env, body: Node, x: string, t: string, i: int, places: seq<Place>)
    requires FirstTyped(Stream(env, body, AsStatement), x, t, i)
    requires Locates(env, body, AsStatement, Stream(env, body, AsStatement), places)
    ensures 0 <= i < |places| && TypedFirstAt(env, body, places[i], x, t)
  {
    var reports := Stream(env, body, AsStatement);
    assert ReportedAt(env, body, AsStatement, places[i], reports[i]);
    ReadIsRead(env, body, places[i], x, t);
    forall q, u | ReadsAt(env, body, q, Read(x, u)) && u != "" ensures q == places[i] || Before(places[i], q) {
      ReadIsRead(env, body, q, x, u);
      var j :| 0 <= j < |places| && places[j] == q;
      assert ReportedAt(env, body, AsStatement, places[j], reports[j]);
      assert reports[j] == Read(x, u);
    }
  }

  /** extractor.go `extractGoReads`. There is a WRITES edge to x if and only if x is not predeclared and the body
      assigns to it, and a READS edge to x if and only if x is not predeclared and the body reads it other than by the
      bare name of a local. An edge carries the type of the first typed read. No kind and name has two edges, and edges
      come in the order of their first reports. */
  method ExtractGoReads(env: Env, body: Node) returns (edges: seq<Edge>)
    ensures exists heads :: Summarises(env, Stream(env, body, AsStatement), edges, heads)
    ensures forall x :: HasEdge(edges, WRITES, x) <==>
              x !in env.predeclared && exists p, i :: AssignsAt(env, body, p, i, x)
    ensures forall x :: HasEdge(edges, READS, x) <==>
              x !in env.predeclared &&
              exists p, t :: ReadsAt(env, body, p, Read(x, t)) && (t != "" || '.' in x || x !in env.varTypes)
    ensures forall a, b | 0 <= a < b < |edges| :: !(edges[a].kind == edges[b].kind && edges[a].to == edges[b].to)
    ensures forall e | e in edges ::
              && e.from == env.callerQN && e.to !in env.predeclared && (e.kind == WRITES ==> e.baseType == "")
              && (e.kind == READS && e.to in env.varTypes && '.' !in e.to ==> e.baseType != "")
    ensures forall e | e in edges && e.kind == READS ::
              if e.baseType == "" then forall p, t | ReadsAt(env, body, p, Read(e.to, t)) :: t == ""
              else exists p :: TypedFirstAt(env, body, p, e.to, e.baseType)
  {
    var c := new Collector(env);
    c.Walk(body);
    edges := c.edges;
    ghost var heads := LogSummarises(env, c.reports);
    AfterIsStream(env, [], body, AsStatement);
    assert c.reports == Stream(env, body, AsStatement);
    forall x
      ensures HasEdge(edges, WRITES, x) <==> x !in env.predeclared && exists p, i :: AssignsAt(env, body, p, i, x)
      ensures HasEdge(edges, READS, x) <==>
              x !in env.predeclared &&
              exists p, t :: ReadsAt(env, body, p, Read(x, t)) && (t != "" || '.' in x || x !in env.varTypes)
    {
      WritesEdgeIff(env, body, edges, heads, x);
      ReadsEdgeIff(env, body, edges, heads, x);
    }
    SummaryMeans(env, Stream(env, body, AsStatement), edges, heads);
    forall e | e in edges ensures EdgeLaw(env, body, e) {
      EdgeIsLawful(env, body, edges, heads, e);
    }
  }

  ghost predicate EdgeLaw(env: Env, body: Node, e: Edge) {
    && e.from == env.callerQN && e.to !in env.predeclared && (e.kind == WRITES ==> e.baseType == "")
    && (e.kind == READS && e.to in env.varTypes && '.' !in e.to ==> e.baseType != "")
    && (e.kind == READS ==>
          if e.baseType == "" then forall p, t | ReadsAt(env, body, p, Read(e.to, t)) :: t == ""
          else exists p :: TypedFirstAt(env, body, p, e.to, e.baseType))
  }

  lemma {:induction false} EdgeIsLawful(env: Env, body: Node, edges: seq<Edge>, heads: seq<int>, e: Edge)
    requires Summarises(env, Stream(env, body, AsStatement), edges, heads) && e in edges
    ensures EdgeLaw(env, body, e)
  {
    var reports := Stream(env, body, AsStatement);
    var a :| 0 <= a < |edges| && edges[a] == e;
    assert IsHead(env, reports, heads[a]);
    var r := reports[heads[a]];
    AcceptedForms(env, r.name, if r.Read? then r.baseType else "");
    if r.Read? {
      assert r == Read(e.to, r.baseType);
      FirstTypeInBody(env, body, e.to);
      ReadsIff(env, body, e.to, r.baseType);
    } else {
      assert r == Write(e.to);
    }
  }
}
