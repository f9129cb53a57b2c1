/** The one-time hook advisories: cmd/pinch/hook_check.go, hook_check_advise_index.go and
    hook_check_advise_route.go over the invocation log of internal/db/db.go. Each event is decided against the
    log and then logged, one event at a time and without lost writes. */
module HookAdvisories {
  import opened Collections
  import opened Repositories
  import Text

  /** An enclosing git repository: its root, whether an indexed project covers it, whether it is a bloat trap. */
  datatype Repo = Repo(root: string, covered: bool, trap: bool)

  /** How a Read stands: exempted early (no path, narrowed, test or prose file), in the index (and whether
      the redirect hint applies), or outside it, in a repository or in none. */
  datatype ReadView = Exempt | Indexed(hint: bool) | Unindexed(repo: Option<Repo>)

  datatype Action =
    | ReadFile(path: string, view: ReadView)
    | SpawnTask(routerInstalled: bool)
    | Grep(hint: bool)
    | Glob(hint: bool)
    | PreCompact(cwd: string, hint: bool)
    | OtherTool

  datatype Event = Event(session: string, action: Action)

  datatype Verdict = PassThrough | RedirectAdvisory | AdviseIndex | AdviseRoute | LedgerAdvisory

  datatype Decision = Decision(continues: bool, verdict: Verdict, path: string)

  datatype Tool = ReadTool | TaskTool | GrepTool | GlobTool | CompactTool | AnyTool

  /** A hook_invocations row. */
  datatype Row = Row(session: string, tool: Tool, path: string, verdict: Verdict)

  type Log = seq<Row>

  /** isCodeFilePath. */
  type IsCode = string -> bool

  const THRESHOLD := 3

  // ---------- The store's queries ----------

  /** HookReadPathsUnderRoot. */
  function ReadPathsUnder(log: Log, session: string, root: string): seq<string> {
    if session == "" || root == "" || log == [] then []
    else
      var before, r := ReadPathsUnder(log[..|log| - 1], session, root), log[|log| - 1];
      if r.session == session && r.tool == ReadTool && Text.HasPrefix(r.path, root + "/") then before + [r.path]
      else before
  }

  /** HookIndexAdvisedForRoot. */
  predicate IndexAdvised(log: Log, session: string, root: string) {
    session != "" && root != ""
    && exists r :: r in log && r.session == session && r.verdict == AdviseIndex && r.path == root
  }

  /** HookTaskEventsInSession. */
  function TaskEvents(log: Log, session: string): nat {
    if session == "" || log == [] then 0
    else
      var r := log[|log| - 1];
      TaskEvents(log[..|log| - 1], session) + if r.session == session && r.tool == TaskTool then 1 else 0
  }

  /** HookRouteAdvisedInSession. */
  predicate RouteAdvised(log: Log, session: string) {
    session != "" && exists r :: r in log && r.session == session && r.verdict == AdviseRoute
  }

  // ---------- The decisions ----------

  /** debugPass. */
  function Pass(path: string): Decision { Decision(true, PassThrough, path) }

  function CountCode(isCode: IsCode, paths: seq<string>): nat {
    if paths == [] then 0
    else CountCode(isCode, paths[..|paths| - 1]) + if isCode(paths[|paths| - 1]) then 1 else 0
  }

  /** decideUnindexedRead. */
  function DecideUnindexedRead(isCode: IsCode, log: Log, session: string, path: string, repo: Option<Repo>): Decision {
    if session == "" then Pass(path)
    else if !isCode(path) then Pass(path)
    else if repo.None? then Pass(path)
    else if repo.value.covered then Pass(path)
    else if repo.value.trap then Pass(path)
    else if IndexAdvised(log, session, repo.value.root) then Pass(path)
    else if CountCode(isCode, ReadPathsUnder(log, session, repo.value.root)) + 1 < THRESHOLD then Pass(path)
    else Decision(true, AdviseIndex, repo.value.root)
  }

  /** decideTaskSpawn. */
  function DecideTaskSpawn(log: Log, session: string, routerInstalled: bool): Decision {
    if session == "" then Pass("")
    else if !routerInstalled then Pass("")
    else if RouteAdvised(log, session) then Pass("")
    else if TaskEvents(log, session) + 1 < THRESHOLD then Pass("")
    else Decision(true, AdviseRoute, session)
  }

  /** decideHook and decidePreCompact. */
  function Decide(isCode: IsCode, log: Log, e: Event): Decision {
    match e.action
    case ReadFile(path, Exempt) => Pass(path)
    case ReadFile(path, Indexed(hint)) => if hint then Decision(true, RedirectAdvisory, path) else Pass(path)
    case ReadFile(path, Unindexed(repo)) => DecideUnindexedRead(isCode, log, e.session, path, repo)
    case SpawnTask(routerInstalled) => DecideTaskSpawn(log, e.session, routerInstalled)
    case Grep(hint) => if hint then Decision(true, RedirectAdvisory, "") else Pass("")
    case Glob(hint) => if hint then Decision(true, RedirectAdvisory, "") else Pass("")
    case PreCompact(cwd, hint) => if hint then Decision(true, LedgerAdvisory, cwd) else Pass(cwd)
    case OtherTool => Pass("")
  }

  function ToolOf(a: Action): Tool {
    match a
    case ReadFile(_, _) => ReadTool
    case SpawnTask(_) => TaskTool
    case Grep(_) => GrepTool
    case Glob(_) => GlobTool
    case PreCompact(_, _) => CompactTool
    case OtherTool => AnyTool
  }

  /** logHookDecision. */
  function RowOf(e: Event, d: Decision): Row { Row(e.session, ToolOf(e.action), d.path, d.verdict) }

  /** The log after some events: row n is event n's. */
  function LogOf(isCode: IsCode, events: seq<Event>): (log: Log)
    ensures |log| == |events|
  {
    if events == [] then []
    else
      var before, e := LogOf(isCode, events[..|events| - 1]), events[|events| - 1];
      before + [RowOf(e, Decide(isCode, before, e))]
  }

  // ---------- The code around them ----------

  class HookStore {
    const isCode: IsCode
    var log: Log
    ghost var events: seq<Event>

    ghost predicate Valid()
      reads this
    {
      log == LogOf(isCode, events)
    }

    constructor (isCode: IsCode)
      ensures Valid() && this.isCode == isCode && events == []
    {
      this.isCode, log, events := isCode, [], [];
    }

    method CountPriorReads(session: string, root: string) returns (prior: nat)
      ensures prior == CountCode(isCode, ReadPathsUnder(log, session, root))
    {
      var paths := ReadPathsUnder(log, session, root);
      prior := 0;
      for i := 0 to |paths|
        invariant prior == CountCode(isCode, paths[..i])
      {
        assert paths[..i + 1][..i] == paths[..i];
        if isCode(paths[i]) {
          prior := prior + 1;
        }
      }
      assert paths[..|paths|] == paths;
    }

    /** One hook invocation: decide, then log. Every decision lets the tool call continue. */
    method HandleEvent(e: Event) returns (d: Decision)
      requires Valid()
      modifies this
      ensures Valid() && events == old(events) + [e]
      ensures d == Decide(isCode, old(log), e) && d.continues
    {
      d := DecideEvent(e);
      AlwaysContinues(isCode, log, e);
      NextRow(isCode, events, e);
      log, events := log + [RowOf(e, d)], events + [e];
    }

    method DecideEvent(e: Event) returns (d: Decision)
      ensures d == Decide(isCode, log, e)
    {
      if e.action.ReadFile? && e.action.view.Unindexed? {
        d := DecideRead(e.session, e.action.path, e.action.view.repo);
      } else {
        d := Decide(isCode, log, e);
      }
    }

    method DecideRead(session: string, path: string, repo: Option<Repo>) returns (d: Decision)
      ensures d == DecideUnindexedRead(isCode, log, session, path, repo)
    {
      d := Pass(path);
      if session == "" || !isCode(path) || repo.None? || repo.value.covered || repo.value.trap {
        return;
      }
      var root := repo.value.root;
      if IndexAdvised(log, session, root) {
        return;
      }
      var prior := CountPriorReads(session, root);
      if prior + 1 < THRESHOLD {
        return;
      }
      d := Decision(true, AdviseIndex, root);
    }
  }

  /** No decision stops the tool call. */
  lemma {:induction false} AlwaysContinues(isCode: IsCode, log: Log, e: Event)
    ensures Decide(isCode, log, e).continues
  {
  }

  /** What is decided where no advisory is at stake: a hint is passed on as a redirect, before a compaction as a ledger
      advisory, and everything else passes. */
  lemma {:induction false} PlainDecisions(isCode: IsCode, log: Log, session: string, path: string, hint: bool)
    ensures Decide(isCode, log, Event(session, ReadFile(path, Exempt))) == Decision(true, PassThrough, path)
    ensures Decide(isCode, log, Event(session, ReadFile(path, Indexed(hint)))) ==
            Decision(true, if hint then RedirectAdvisory else PassThrough, path)
    ensures Decide(isCode, log, Event(session, Grep(hint))) ==
            Decision(true, if hint then RedirectAdvisory else PassThrough, "")
    ensures Decide(isCode, log, Event(session, Glob(hint))) ==
            Decision(true, if hint then RedirectAdvisory else PassThrough, "")
    ensures Decide(isCode, log, Event(session, PreCompact(path, hint))) ==
            Decision(true, if hint then LedgerAdvisory else PassThrough, path)
    ensures Decide(isCode, log, Event(session, OtherTool)) == Decision(true, PassThrough, "")
  {
  }

  /** What is decided otherwise: the index advisory names the repository, the route advisory the session, and everything
      else passes with the file's path, or without one. */
  lemma {:induction false} AdvisoryDecisions(isCode: IsCode, log: Log, e: Event)
    ensures e.action.ReadFile? && e.action.view.Unindexed? ==>
              var d, repo := Decide(isCode, log, e), e.action.view.repo;
              if d.verdict == AdviseIndex then repo.Some? && d.path == repo.value.root
              else d == Decision(true, PassThrough, e.action.path)
    ensures e.action.SpawnTask? ==>
              var d := Decide(isCode, log, e);
              if d.verdict == AdviseRoute then d.path == e.session else d == Decision(true, PassThrough, "")
  {
  }

  /** What is logged for an event: its session, its tool, and what was decided. */
  lemma {:induction false} RowForms(e: Event, d: Decision)
    ensures var row := RowOf(e, d);
            && row.session == e.session && row.path == d.path && row.verdict == d.verdict
            && (row.tool == ReadTool <==> e.action.ReadFile?) && (row.tool == TaskTool <==> e.action.SpawnTask?)
            && (row.tool == GrepTool <==> e.action.Grep?) && (row.tool == GlobTool <==> e.action.Glob?)
            && (row.tool == CompactTool <==> e.action.PreCompact?)
  {
  }

  // ---------- The log and the events ----------

  lemma {:induction false} LogPrefix(isCode: IsCode, events: seq<Event>, n: nat)
    requires n <= |events|
    ensures LogOf(isCode, events[..n]) == LogOf(isCode, events)[..n]
    decreases |events|
  {
    if n == |events| {
      assert events[..n] == events;
    } else {
      var init := events[..|events| - 1];
      LogPrefix(isCode, init, n);
      assert init[..n] == events[..n];
    }
  }

  /** The log grows by a row for each event. */
  lemma {:induction false} NextRow(isCode: IsCode, events: seq<Event>, e: Event)
    ensures LogOf(isCode, events + [e]) == LogOf(isCode, events) + [RowOf(e, Decide(isCode, LogOf(isCode, events), e))]
  {
    assert (events + [e])[..|events|] == events;
  }

  /** Row n is what was decided for event n on the log before it. */
  lemma {:induction false} RowAt(isCode: IsCode, events: seq<Event>, n: nat)
    requires n < |events|
    ensures LogOf(isCode, events)[n] == RowOf(events[n], Decide(isCode, LogOf(isCode, events[..n]), events[n]))
  {
    var prefix := events[..n + 1];
    LogPrefix(isCode, events, n + 1);
    assert prefix[..n] == events[..n] && prefix[n] == events[n];
    LastRow(isCode, prefix);
  }

  lemma {:induction false} LastRow(isCode: IsCode, events: seq<Event>)
    requires events != []
    ensures var n := |events| - 1;
            LogOf(isCode, events)[n] == RowOf(events[n], Decide(isCode, LogOf(isCode, events[..n]), events[n]))
  {
  }

  // ---------- The route advisory ----------

  /** Task events of a session. */
  function Tasks(events: seq<Event>, session: string): nat {
    if events == [] then 0
    else
      var e := events[|events| - 1];
      Tasks(events[..|events| - 1], session) + if e.session == session && e.action.SpawnTask? then 1 else 0
  }

  /** One more Task event of the session, and nothing else, counts. */
  lemma {:induction false} TasksForms(events: seq<Event>, e: Event, session: string)
    ensures Tasks([], session) == 0
    ensures Tasks(events + [e], session) == Tasks(events, session) +
            if e.session == session && e.action.SpawnTask? then 1 else 0
  {
    assert (events + [e])[..|events|] == events;
  }

  /** When a decision is the route advisory: an identified session, a router, no such advisory in the session's log, and
      at least two Task rows there. */
  lemma {:induction false} DecidesRoute(isCode: IsCode, log: Log, e: Event)
    ensures Decide(isCode, log, e).verdict == AdviseRoute <==>
            && e.session != "" && e.action == SpawnTask(true)
            && (forall r | r in log && r.session == e.session :: r.verdict != AdviseRoute)
            && TaskEvents(log, e.session) >= 2
  {
  }

  /** The rows carry the events' sessions and tools. */
  ghost predicate Follows(log: Log, events: seq<Event>) {
    && |log| == |events|
    && forall i | 0 <= i < |log| :: log[i].session == events[i].session && log[i].tool == ToolOf(events[i].action)
  }

  lemma {:induction false} LogFollows(isCode: IsCode, events: seq<Event>)
    ensures Follows(LogOf(isCode, events), events)
  {
    forall i | 0 <= i < |events|
      ensures var row := LogOf(isCode, events)[i];
              row.session == events[i].session && row.tool == ToolOf(events[i].action)
    {
      RowAt(isCode, events, i);
    }
  }

  lemma {:induction false} TasksCounted(log: Log, events: seq<Event>, session: string)
    requires session != "" && Follows(log, events)
    ensures TaskEvents(log, session) == Tasks(events, session)
  {
    if events != [] {
      var n := |events| - 1;
      TasksCounted(log[..n], events[..n], session);
      assert log[n].tool == TaskTool <==> events[n].action.SpawnTask?;
    }
  }

  lemma {:induction false} LoggedTasks(isCode: IsCode, events: seq<Event>, session: string)
    requires session != ""
    ensures TaskEvents(LogOf(isCode, events), session) == Tasks(events, session)
  {
    LogFollows(isCode, events);
    TasksCounted(LogOf(isCode, events), events, session);
  }

  /** At least the third Task event of an identified session, with a router installed. */
  ghost predicate RouteDue(events: seq<Event>, n: int) {
    && 0 <= n < |events| && events[n].action == SpawnTask(true) && events[n].session != ""
    && Tasks(events[..n], events[n].session) >= 2
  }

  ghost predicate FirstRouteDue(events: seq<Event>, n: int) {
    RouteDue(events, n) && forall m | 0 <= m < n && RouteDue(events, m) :: events[m].session != events[n].session
  }

  lemma {:induction false} EarliestRoute(events: seq<Event>, n: nat) returns (m: nat)
    requires RouteDue(events, n)
    ensures m <= n && FirstRouteDue(events, m) && events[m].session == events[n].session
    decreases n
  {
    if k :| 0 <= k < n && RouteDue(events, k) && events[k].session == events[n].session {
      m := EarliestRoute(events, k);
    } else {
      m := n;
    }
  }

  /** Over every event sequence, a session's route advisory fires at its first event at which it is due, and
      at no other: so at most once a session. */
  lemma {:induction false} RouteAdvisoryExact(isCode: IsCode, events: seq<Event>, n: nat)
    requires n < |events|
    ensures LogOf(isCode, events)[n].verdict == AdviseRoute <==> FirstRouteDue(events, n)
    decreases n
  {
    var log, e := LogOf(isCode, events), events[n];
    RowAt(isCode, events, n);
    LogPrefix(isCode, events, n);
    if e.action.SpawnTask? && e.session != "" {
      LoggedTasks(isCode, events[..n], e.session);
      RouteHistory(isCode, events, n, e.session);
    }
  }

  lemma {:induction false} RouteHistory(isCode: IsCode, events: seq<Event>, n: nat, session: string)
    requires n <= |events| && session != ""
    ensures RouteAdvised(LogOf(isCode, events[..n]), session)
       <==> exists m :: 0 <= m < n && RouteDue(events, m) && events[m].session == session
    decreases n, 0
  {
    var log := LogOf(isCode, events);
    LogPrefix(isCode, events, n);
    if m: nat :| m < n && RouteDue(events, m) && events[m].session == session {
      var k := EarliestRoute(events, m);
      RouteAdvisoryExact(isCode, events, k);
      RowAt(isCode, events, k);
      assert log[..n][k] == log[k] && log[k] in log[..n];
    }
    if RouteAdvised(log[..n], session) {
      var r :| r in log[..n] && r.session == session && r.verdict == AdviseRoute;
      var m :| 0 <= m < n && log[..n][m] == r;
      assert log[m] == r;
      RouteAdvisoryExact(isCode, events, m);
      RowAt(isCode, events, m);
      assert RouteDue(events, m) && events[m].session == session;
    }
  }

  /** At most one route advisory a session. */
  lemma {:induction false} RouteAdvisedOnce(isCode: IsCode, events: seq<Event>, m: nat, n: nat)
    requires m < n < |events| && events[m].session == events[n].session
    ensures !(LogOf(isCode, events)[m].verdict == AdviseRoute && LogOf(isCode, events)[n].verdict == AdviseRoute)
  {
    RouteAdvisoryExact(isCode, events, m);
    RouteAdvisoryExact(isCode, events, n);
  }

  // ---------- The index advisory ----------

  /** A code-file Read of the session that lies under root: by its path, or by the repository it is in. */
  ghost predicate CodeReadUnder(isCode: IsCode, e: Event, session: string, root: string) {
    && e.session == session && e.action.ReadFile? && isCode(e.action.path)
    && (Text.HasPrefix(e.action.path, root + "/") ||
        (e.action.view.Unindexed? && e.action.view.repo.Some? &&
         (e.action.view.repo.value.root == root || Text.HasPrefix(e.action.view.repo.value.root, root + "/"))))
  }

  ghost function CodeReadsUnder(isCode: IsCode, events: seq<Event>, session: string, root: string): nat {
    if events == [] then 0
    else
      CodeReadsUnder(isCode, events[..|events| - 1], session, root)
      + if CodeReadUnder(isCode, events[|events| - 1], session, root) then 1 else 0
  }

  /** Rows that count below root come from code-file Reads below it. */
  ghost predicate Explained(isCode: IsCode, log: Log, events: seq<Event>, session: string, root: string) {
    && |log| == |events|
    && forall i | 0 <= i < |log| ::
         CountsBelow(isCode, log[i], session, root) ==> CodeReadUnder(isCode, events[i], session, root)
  }

  ghost predicate CountsBelow(isCode: IsCode, r: Row, session: string, root: string) {
    r.session == session && r.tool == ReadTool && Text.HasPrefix(r.path, root + "/") && isCode(r.path)
  }

  lemma {:induction false} ExplainedBounds(isCode: IsCode, log: Log, events: seq<Event>, session: string, root: string)
    requires Explained(isCode, log, events, session, root)
    ensures CountCode(isCode, ReadPathsUnder(log, session, root)) <= CodeReadsUnder(isCode, events, session, root)
    decreases |log|
  {
    if log != [] {
      var n := |log| - 1;
      ExplainedBounds(isCode, log[..n], events[..n], session, root);
      assert log == log[..n] + [log[n]];
      ReadsStep(isCode, log[..n], log[n], session, root);
    }
  }

  /** The counter the log yields never exceeds the code-file Reads there were. */
  lemma {:induction false} LoggedReadsBounded(isCode: IsCode, events: seq<Event>, session: string, root: string)
    ensures CountCode(isCode, ReadPathsUnder(LogOf(isCode, events), session, root)) <=
            CodeReadsUnder(isCode, events, session, root)
  {
    LogExplained(isCode, events, session, root);
    ExplainedBounds(isCode, LogOf(isCode, events), events, session, root);
  }

  lemma {:induction false} LogExplained(isCode: IsCode, events: seq<Event>, session: string, root: string)
    ensures Explained(isCode, LogOf(isCode, events), events, session, root)
  {
    var log := LogOf(isCode, events);
    forall i | 0 <= i < |log|
      ensures CountsBelow(isCode, log[i], session, root) ==> CodeReadUnder(isCode, events[i], session, root)
    {
      RowAt(isCode, events, i);
      CountedIsRead(isCode, LogOf(isCode, events[..i]), events[i], session, root);
    }
  }

  /** A row the log counts below root comes from a code-file Read below it. */
  lemma {:induction false} CountedIsRead(isCode: IsCode, log: Log, e: Event, session: string, root: string)
    ensures var row := RowOf(e, Decide(isCode, log, e));
            row.session == session && row.tool == ReadTool
            && Text.HasPrefix(row.path, root + "/") && isCode(row.path) ==>
              CodeReadUnder(isCode, e, session, root)
  {
    RowPath(isCode, log, e);
    var row := RowOf(e, Decide(isCode, log, e));
    if row.verdict == AdviseIndex {
      DecidesIndex(isCode, log, e, e.session, row.path);
    }
  }

  lemma {:induction false} ReadsStep(isCode: IsCode, log: Log, r: Row, session: string, root: string)
    ensures CountCode(isCode, ReadPathsUnder(log + [r], session, root))
         == CountCode(isCode, ReadPathsUnder(log, session, root))
          + if session != "" && root != "" && r.session == session && r.tool == ReadTool &&
               Text.HasPrefix(r.path, root + "/") && isCode(r.path)
            then 1 else 0
  {
    assert (log + [r])[..|log|] == log;
    var paths := ReadPathsUnder(log, session, root);
    assert (paths + [r.path])[..|paths|] == paths;
  }

  /** What an index advisory row says about its event. */
  lemma {:induction false} IndexRow(isCode: IsCode, events: seq<Event>, n: nat)
    requires n < |events| && LogOf(isCode, events)[n].verdict == AdviseIndex
    ensures var e, root := events[n], LogOf(isCode, events)[n].path;
            && e.session != "" && e.action.ReadFile? && isCode(e.action.path)
            && e.action.view == Unindexed(Some(Repo(root, false, false)))
            && !IndexAdvised(LogOf(isCode, events[..n]), e.session, root)
            && CountCode(isCode, ReadPathsUnder(LogOf(isCode, events[..n]), e.session, root)) >= 2
  {
    RowAt(isCode, events, n);
  }

  /** Over every event sequence, a repository is only advised at a code-file Read inside it that is at least
      the session's third under that root. */
  lemma {:induction false} IndexAdvisedNotBeforeThree(isCode: IsCode, events: seq<Event>, n: nat)
    requires n < |events| && LogOf(isCode, events)[n].verdict == AdviseIndex
    ensures CodeReadUnder(isCode, events[n], events[n].session, LogOf(isCode, events)[n].path)
    ensures CodeReadsUnder(isCode, events[..n + 1], events[n].session, LogOf(isCode, events)[n].path) >= 3
  {
    var session, root := events[n].session, LogOf(isCode, events)[n].path;
    IndexRow(isCode, events, n);
    LoggedReadsBounded(isCode, events[..n], session, root);
    assert events[..n + 1][..n] == events[..n];
  }

  /** At most one index advisory for each session and repository. */
  lemma {:induction false} IndexAdvisedOnce(isCode: IsCode, events: seq<Event>, m: nat, n: nat)
    requires m < n < |events| && events[m].session == events[n].session
    requires LogOf(isCode, events)[m].verdict == AdviseIndex && LogOf(isCode, events)[n].verdict == AdviseIndex
    ensures LogOf(isCode, events)[m].path != LogOf(isCode, events)[n].path
  {
    var log := LogOf(isCode, events);
    IndexRow(isCode, events, n);
    LogPrefix(isCode, events, n);
    RowAt(isCode, events, m);
    assert log[..n][m] == log[m] && log[m] in log[..n];
    if log[m].path == log[n].path {
      RootNamed(isCode, events, n);
    }
  }

  /** The empty root is never advised, since no path lies under it. */
  lemma {:induction false} RootNamed(isCode: IsCode, events: seq<Event>, n: nat)
    requires n < |events| && LogOf(isCode, events)[n].verdict == AdviseIndex
    ensures LogOf(isCode, events)[n].path != ""
  {
    IndexRow(isCode, events, n);
  }

  // ---------- When the index advisory fires ----------

  /** A Read of a code file whose path lies below root. */
  ghost predicate ReadsBelow(isCode: IsCode, e: Event, session: string, root: string) {
    && e.session == session && e.action.ReadFile? && isCode(e.action.path)
    && Text.HasPrefix(e.action.path, root + "/")
  }

  ghost function PathReads(isCode: IsCode, events: seq<Event>, session: string, root: string): nat {
    if events == [] then 0
    else
      PathReads(isCode, events[..|events| - 1], session, root)
      + if ReadsBelow(isCode, events[|events| - 1], session, root) then 1 else 0
  }

  /** A code-file Read in an advisable repository of an identified session, after two under its root. */
  ghost predicate IndexDue(isCode: IsCode, events: seq<Event>, n: int, session: string, root: string) {
    && 0 <= n < |events| && session != "" && root != "" && events[n].session == session
    && events[n].action.ReadFile? && isCode(events[n].action.path)
    && events[n].action.view == Unindexed(Some(Repo(root, false, false)))
    && PathReads(isCode, events[..n], session, root) >= 2
  }

  /** Event k is a Read below root that was answered with the advisory of a repository outside root: its row carries
      that repository in place of the file, so the log does not count it below root. */
  ghost predicate Displaced(isCode: IsCode, events: seq<Event>, k: int, session: string, root: string) {
    && 0 <= k < |events| && events[k].session == session && events[k].action.ReadFile?
    && LogOf(isCode, events)[k].verdict == AdviseIndex &&
       Displaces(events[k].action.path, LogOf(isCode, events)[k].path, root)
  }

  ghost predicate Displaces(path: string, advised: string, root: string) {
    Text.HasPrefix(path, root + "/") && advised != root && !Text.HasPrefix(advised, root + "/")
  }

  /** Reads of code files below root that were not displaced. */
  ghost function KeptReads(isCode: IsCode, events: seq<Event>, session: string, root: string): nat {
    if events == [] then 0
    else
      var n := |events| - 1;
      KeptReads(isCode, events[..n], session, root)
      + if ReadsBelow(isCode, events[n], session, root) && !Displaced(isCode, events, n, session, root) then 1 else 0
  }

  lemma {:induction false} KeptAtMost(isCode: IsCode, events: seq<Event>, session: string, root: string)
    ensures KeptReads(isCode, events, session, root) <= PathReads(isCode, events, session, root)
    decreases |events|
  {
    if events != [] {
      KeptAtMost(isCode, events[..|events| - 1], session, root);
    }
  }

  ghost predicate Undisplaced(isCode: IsCode, events: seq<Event>, session: string, root: string) {
    forall k :: !Displaced(isCode, events, k, session, root)
  }

  lemma {:induction false} UndisplacedPrefix(isCode: IsCode, events: seq<Event>, session: string, root: string, n: nat)
    requires n <= |events| && Undisplaced(isCode, events, session, root)
    ensures Undisplaced(isCode, events[..n], session, root)
  {
    LogPrefix(isCode, events, n);
    forall k ensures !Displaced(isCode, events[..n], k, session, root) {
      assert !Displaced(isCode, events, k, session, root);
    }
  }

  lemma {:induction false} UndisplacedKept(isCode: IsCode, events: seq<Event>, session: string, root: string)
    requires Undisplaced(isCode, events, session, root)
    ensures KeptReads(isCode, events, session, root) == PathReads(isCode, events, session, root)
    decreases |events|
  {
    if events != [] {
      var n := |events| - 1;
      UndisplacedPrefix(isCode, events, session, root, n);
      UndisplacedKept(isCode, events[..n], session, root);
      assert !Displaced(isCode, events, n, session, root);
    }
  }

  /** What lies under a nested root lies under the outer one. */
  lemma {:induction false} UnderNested(x: string, inner: string, root: string)
    requires Text.HasPrefix(inner, root + "/") && Text.HasPrefix(x, inner + "/")
    ensures Text.HasPrefix(x, root + "/")
  {
    var p := root + "/";
    assert x[..|p|] == x[..|inner + "/"|][..|p|] == inner[..|p|];
  }

  lemma {:induction false} NestedCountsLess(isCode: IsCode, log: Log, session: string, inner: string, root: string)
    requires session != "" && root != "" && Text.HasPrefix(inner, root + "/")
    ensures CountCode(isCode, ReadPathsUnder(log, session, inner)) <=
            CountCode(isCode, ReadPathsUnder(log, session, root))
  {
    if log != [] {
      var before, r := log[..|log| - 1], log[|log| - 1];
      NestedCountsLess(isCode, before, session, inner, root);
      assert log == before + [r];
      ReadsStep(isCode, before, r, session, inner);
      ReadsStep(isCode, before, r, session, root);
      if Text.HasPrefix(r.path, inner + "/") {
        UnderNested(r.path, inner, root);
      }
    }
  }

  /** Two counters that agree up to the point where both have reached two. */
  ghost predicate Agree(c: nat, p: nat) { c == p || (c >= 2 && p >= 2) }

  /** While root is not advised, the log's counter agrees with the Reads below it that were not displaced. An advisory
      row does carry a root in place of its file, but an advisory inside a nested repository only comes after two
      counted Reads. */
  lemma {:induction false} LoggedReadsAgree(isCode: IsCode, events: seq<Event>, session: string, root: string)
    requires session != "" && root != "" && !IndexAdvised(LogOf(isCode, events), session, root)
    ensures Agree(CountCode(isCode, ReadPathsUnder(LogOf(isCode, events), session, root)),
                  KeptReads(isCode, events, session, root))
    decreases |events|
  {
    if events != [] {
      var n := |events| - 1;
      var log, e := LogOf(isCode, events[..n]), events[n];
      var row := RowOf(e, Decide(isCode, log, e));
      assert events == events[..n] + [e];
      NextRow(isCode, events[..n], e);
      AdvisedAppend(log, row, session, root);
      LoggedReadsAgree(isCode, events[..n], session, root);
      ReadsStep(isCode, log, row, session, root);
      AgreeStep(isCode, log, e, row, session, root);
      LastDisplaced(isCode, events, row, session, root);
    }
  }

  /** Whether the last event is displaced, by its row. */
  lemma {:induction false} LastDisplaced(isCode: IsCode, events: seq<Event>, row: Row, session: string, root: string)
    requires events != [] && LogOf(isCode, events)[|events| - 1] == row
    ensures var e := events[|events| - 1];
            ReadsBelow(isCode, e, session, root) ==>
              (Displaced(isCode, events, |events| - 1, session, root) <==>
               row.verdict == AdviseIndex && Displaces(e.action.path, row.path, root))
  {
  }

  lemma {:induction false} AdvisedAppend(log: Log, r: Row, session: string, root: string)
    requires session != "" && root != ""
    ensures IndexAdvised(log + [r], session, root) <==>
            IndexAdvised(log, session, root) || (r.session == session && r.verdict == AdviseIndex && r.path == root)
  {
    assert forall x :: x in log + [r] <==> x in log || x == r;
  }

  /** One event adds as much to one counter as to the other, unless the log's had reached two. */
  lemma {:induction false} AgreeStep(isCode: IsCode, log: Log, e: Event, row: Row, session: string, root: string)
    requires session != "" && root != "" && row == RowOf(e, Decide(isCode, log, e))
    requires row.session == session && row.verdict == AdviseIndex ==> row.path != root
    ensures var c := row.session == session && row.tool == ReadTool && Text.HasPrefix(row.path, root + "/")
                     && isCode(row.path);
            var p := ReadsBelow(isCode, e, session, root)
                     && !(row.verdict == AdviseIndex && Displaces(e.action.path, row.path, root));
            c == p || CountCode(isCode, ReadPathsUnder(log, session, root)) >= 2
  {
    RowPath(isCode, log, e);
    if row.verdict == AdviseIndex && row.session == session {
      var inner := row.path;
      DecidesIndex(isCode, log, e, session, inner);
      if Text.HasPrefix(inner, root + "/") {
        NestedCountsLess(isCode, log, session, inner, root);
      }
    }
  }

  lemma {:induction false} RowPath(isCode: IsCode, log: Log, e: Event)
    ensures var row := RowOf(e, Decide(isCode, log, e));
            e.action.ReadFile? ==>
              if row.verdict == AdviseIndex
              then e.action.view.Unindexed? && e.action.view.repo.Some? && row.path == e.action.view.repo.value.root
              else row.path == e.action.path
    ensures RowOf(e, Decide(isCode, log, e)).tool == ReadTool <==> e.action.ReadFile?
  {
  }

  /** When a decision is the index advisory for a session and root. */
  lemma {:induction false} DecidesIndex(isCode: IsCode, log: Log, e: Event, session: string, root: string)
    requires session != ""
    ensures RowOf(e, Decide(isCode, log, e)) == Row(session, ReadTool, root, AdviseIndex) <==>
            && e.session == session && e.action.ReadFile? && isCode(e.action.path)
            && e.action.view == Unindexed(Some(Repo(root, false, false)))
            && !IndexAdvised(log, session, root)
            && CountCode(isCode, ReadPathsUnder(log, session, root)) >= 2
  {
  }

  ghost predicate DueBefore(isCode: IsCode, events: seq<Event>, n: nat, session: string, root: string) {
    exists m :: 0 <= m < n && IndexDue(isCode, events, m, session, root)
  }

  /** What is promised of event n: the advisory fires there if and only if it is due there for the first time. */
  ghost predicate FiresWhenDue(isCode: IsCode, events: seq<Event>, n: nat, session: string, root: string)
    requires n < |events|
  {
    LogOf(isCode, events)[n] == Row(session, ReadTool, root, AdviseIndex) <==>
    IndexDue(isCode, events, n, session, root) && !DueBefore(isCode, events, n, session, root)
  }

  /** The advisory is due at event n for the first time, but so many Reads were displaced that fewer than two are
      left. */
  ghost predicate Starved(isCode: IsCode, events: seq<Event>, n: nat, session: string, root: string) {
    && IndexDue(isCode, events, n, session, root) && !DueBefore(isCode, events, n, session, root)
    && KeptReads(isCode, events[..n], session, root) < 2
  }

  /** Over every event sequence, the index advisory of a session and root fires at the first Read at which it is due,
      and at no other event, if and only if enough Reads below the root were not answered with the advisory of a
      repository outside it. */
  lemma {:induction false} ExactIff(isCode: IsCode, events: seq<Event>, session: string, root: string)
    ensures (forall n: nat | n < |events| :: FiresWhenDue(isCode, events, n, session, root)) <==>
            (forall n: nat | n < |events| :: !Starved(isCode, events, n, session, root))
  {
    if session == "" || root == "" {
      forall n: nat | n < |events| ensures FiresWhenDue(isCode, events, n, session, root) {
        NeverForNobody(isCode, events, n, session, root);
      }
    } else {
      forall n: nat | n < |events| && forall m: nat | m < |events| :: FiresWhenDue(isCode, events, m, session, root)
        ensures !Starved(isCode, events, n, session, root)
      {
        IndexHistory(isCode, events, n, session, root);
        FiresStep(isCode, events, n, session, root);
      }
      forall n: nat | n < |events| && forall m: nat | m < |events| :: !Starved(isCode, events, m, session, root)
        ensures FiresWhenDue(isCode, events, n, session, root)
      {
        FiresUpTo(isCode, events, n, session, root);
      }
    }
  }

  lemma {:induction false} NeverForNobody(isCode: IsCode, events: seq<Event>, n: nat, session: string, root: string)
    requires n < |events| && (session == "" || root == "")
    ensures LogOf(isCode, events)[n] != Row(session, ReadTool, root, AdviseIndex)
  {
    if LogOf(isCode, events)[n].verdict == AdviseIndex {
      IndexRow(isCode, events, n);
      RowAt(isCode, events, n);
      RootNamed(isCode, events, n);
    }
  }

  /** If the log knows of an advisory exactly when one has been due, event n is as promised unless it is starved. */
  lemma {:induction false} FiresStep(isCode: IsCode, events: seq<Event>, n: nat, session: string, root: string)
    requires n < |events| && session != "" && root != ""
    requires IndexAdvised(LogOf(isCode, events[..n]), session, root) <==> DueBefore(isCode, events, n, session, root)
    ensures FiresWhenDue(isCode, events, n, session, root) <==> !Starved(isCode, events, n, session, root)
  {
    var log := LogOf(isCode, events[..n]);
    RowAt(isCode, events, n);
    DecidesIndex(isCode, log, events[n], session, root);
    KeptAtMost(isCode, events[..n], session, root);
    if !IndexAdvised(log, session, root) {
      LoggedReadsAgree(isCode, events[..n], session, root);
    }
  }

  lemma {:induction false} FiresUpTo(isCode: IsCode, events: seq<Event>, n: nat, session: string, root: string)
    requires n < |events| && session != "" && root != ""
    requires forall m: nat | m <= n :: !Starved(isCode, events, m, session, root)
    ensures FiresWhenDue(isCode, events, n, session, root)
    decreases n
  {
    forall m: nat | m < n ensures FiresWhenDue(isCode, events, m, session, root) {
      FiresUpTo(isCode, events, m, session, root);
    }
    IndexHistory(isCode, events, n, session, root);
    FiresStep(isCode, events, n, session, root);
  }

  /** As long as events are as promised, the log knows of an advisory exactly when one has been due. */
  lemma {:induction false} IndexHistory(isCode: IsCode, events: seq<Event>, n: nat, session: string, root: string)
    requires n <= |events| && session != "" && root != ""
    requires forall m: nat | m < n :: FiresWhenDue(isCode, events, m, session, root)
    ensures IndexAdvised(LogOf(isCode, events[..n]), session, root) <==> DueBefore(isCode, events, n, session, root)
    decreases n
  {
    if n > 0 {
      IndexHistory(isCode, events, n - 1, session, root);
      assert FiresWhenDue(isCode, events, n - 1, session, root);
      HistoryStep(isCode, events, n - 1, session, root);
    }
  }

  /** In particular when no Read below the root was displaced. */
  lemma {:induction false} ExactUnlessDisplaced(isCode: IsCode, events: seq<Event>, n: nat, session: string,
                                                root: string)
    requires n < |events| && Undisplaced(isCode, events, session, root)
    ensures FiresWhenDue(isCode, events, n, session, root)
  {
    forall m: nat | m < |events| ensures !Starved(isCode, events, m, session, root) {
      UndisplacedPrefix(isCode, events, session, root, m);
      UndisplacedKept(isCode, events[..m], session, root);
    }
    ExactIff(isCode, events, session, root);
  }

  lemma {:induction false} HistoryStep(isCode: IsCode, events: seq<Event>, m: nat, session: string, root: string)
    requires m < |events| && session != "" && root != ""
    requires IndexAdvised(LogOf(isCode, events[..m]), session, root) <==> DueBefore(isCode, events, m, session, root)
    requires FiresWhenDue(isCode, events, m, session, root)
    ensures IndexAdvised(LogOf(isCode, events[..m + 1]), session, root) <==>
            DueBefore(isCode, events, m + 1, session, root)
  {
    var log := LogOf(isCode, events);
    LogPrefix(isCode, events, m);
    LogPrefix(isCode, events, m + 1);
    assert log[..m + 1] == log[..m] + [log[m]];
    AdvisedStep(isCode, events, m, log[..m], session, root);
    DueStep(isCode, events, m + 1, session, root);
  }

  lemma {:induction false} DueStep(isCode: IsCode, events: seq<Event>, n: nat, session: string, root: string)
    requires 0 < n
    ensures DueBefore(isCode, events, n, session, root) <==>
            DueBefore(isCode, events, n - 1, session, root) || IndexDue(isCode, events, n - 1, session, root)
  {
  }

  lemma {:induction false} AdvisedStep(isCode: IsCode, events: seq<Event>, n: nat, log: Log, session: string,
                                       root: string)
    requires n < |events| && session != "" && root != ""
    ensures IndexAdvised(log + [LogOf(isCode, events)[n]], session, root) <==>
            IndexAdvised(log, session, root) || LogOf(isCode, events)[n] == Row(session, ReadTool, root, AdviseIndex)
  {
    var row := LogOf(isCode, events)[n];
    RowAt(isCode, events, n);
    assert row.verdict == AdviseIndex ==> row.tool == ReadTool;
    AdvisedAppend(log, row, session, root);
  }

  // ---------- Repositories on disk ----------

  /** The repository a Read is in is what gitRepoRoot finds for its path. */
  ghost predicate FoundAt(disk: Disk, path: string, repo: Option<Repo>, root: Option<seq<string>>) {
    && Absolute(path) && IsRepoRoot(disk, FileOf(path), root)
    && (repo.Some? <==> root.Some?) && (root.Some? ==> repo.value.root == PathOf(root.value))
  }

  ghost predicate Found(disk: Disk, path: string, repo: Option<Repo>) { exists root :: FoundAt(disk, path, repo, root) }

  /** At each event the disk is in some state, and the event's repository is what gitRepoRoot finds there. */
  ghost predicate OnDisk(disks: seq<Disk>, events: seq<Event>) {
    && |disks| == |events|
    && forall k | 0 <= k < |events| && events[k].action.ReadFile? && events[k].action.view.Unindexed? ::
         Found(disks[k], events[k].action.path, events[k].action.view.repo)
  }

  ghost predicate IsRepository(disk: Disk, root: string) {
    exists dir :: Clean(dir) && disk(dir) && root == PathOf(dir)
  }

  /** Only directories that hold a .git are repositories of events. */
  lemma {:induction false} RepositoryHasGit(disk: Disk, path: string, repo: Option<Repo>)
    requires Found(disk, path, repo) && repo.Some?
    ensures IsRepository(disk, repo.value.root)
  {
    var root :| FoundAt(disk, path, repo, root);
    assert Clean(FileOf(path)) && Clean(root.value);
  }

  /** A root that holds no .git at the time is never advised. */
  lemma {:induction false} AdvisedIsRepository(isCode: IsCode, disks: seq<Disk>, events: seq<Event>, n: nat)
    requires n < |events| && OnDisk(disks, events) && LogOf(isCode, events)[n].verdict == AdviseIndex
    ensures IsRepository(disks[n], LogOf(isCode, events)[n].path)
  {
    IndexRow(isCode, events, n);
    RepositoryHasGit(disks[n], events[n].action.path, events[n].action.view.repo);
  }

  /** A directory that holds a .git contains the repository of every file in it. */
  lemma {:induction false} RepositoryBelow(disk: Disk, path: string, repo: Option<Repo>, dir: seq<string>)
    requires Found(disk, path, repo) && FileIn(path, dir) && dir != [] && disk(dir)
    ensures repo.Some? && (repo.value.root == PathOf(dir) || Text.HasPrefix(repo.value.root, PathOf(dir) + "/"))
  {
    var root :| FoundAt(disk, path, repo, root);
    assert dir <= Parent(FileOf(path)) && root.Some? && dir <= root.value;
    if dir != root.value {
      BelowHasPrefix(dir, root.value);
    }
  }

  /** Whatever the session's Reads are counted below the directory by their path, their files are in it, and it held a
      .git at the time. */
  ghost predicate Steady(disks: seq<Disk>, events: seq<Event>, session: string, dir: seq<string>) {
    forall k | 0 <= k < |events| && k < |disks| && events[k].session == session && events[k].action.ReadFile?
               && Text.HasPrefix(events[k].action.path, PathOf(dir) + "/") ::
      FileIn(events[k].action.path, dir) && disks[k](dir)
  }

  /** Then the index advisory of the session and directory is exact, whatever else is read or happens on disk. */
  lemma {:induction false} SteadyIsExact(isCode: IsCode, disks: seq<Disk>, events: seq<Event>, n: nat, session: string,
                                         dir: seq<string>)
    requires n < |events| && OnDisk(disks, events) && dir != [] && Steady(disks, events, session, dir)
    ensures FiresWhenDue(isCode, events, n, session, PathOf(dir))
  {
    forall k ensures !Displaced(isCode, events, k, session, PathOf(dir)) {
      if Displaced(isCode, events, k, session, PathOf(dir)) {
        IndexRow(isCode, events, k);
        RepositoryBelow(disks[k], events[k].action.path, events[k].action.view.repo, dir);
      }
    }
    ExactUnlessDisplaced(isCode, events, n, session, PathOf(dir));
  }

  /** No repository appears or vanishes, and every path is counted below exactly the directories its file is in. */
  ghost predicate Unchanging(disk: Disk, disks: seq<Disk>, events: seq<Event>) {
    && (forall k | 0 <= k < |disks| :: disks[k] == disk)
    && forall k | 0 <= k < |events| && events[k].action.ReadFile? :: RightlyCounted(events[k].action.path)
  }

  /** The root of the file system: only files directly in it are counted below it, and it is their repository. */
  lemma {:induction false} TopIsExact(isCode: IsCode, disk: Disk, disks: seq<Disk>, events: seq<Event>, n: nat,
                                      session: string)
    requires n < |events| && OnDisk(disks, events) && Unchanging(disk, disks, events) && disk([])
    ensures FiresWhenDue(isCode, events, n, session, PathOf([]))
  {
    forall k ensures !Displaced(isCode, events, k, session, PathOf([])) {
      if Displaced(isCode, events, k, session, PathOf([])) {
        IndexRow(isCode, events, k);
        TopRepository(disk, events[k].action.path, events[k].action.view.repo);
      }
    }
    ExactUnlessDisplaced(isCode, events, n, session, PathOf([]));
  }

  lemma {:induction false} TopRepository(disk: Disk, path: string, repo: Option<Repo>)
    requires Found(disk, path, repo) && RightlyCounted(path) && Text.HasPrefix(path, PathOf([]) + "/") && disk([])
    ensures repo.Some? && repo.value.root == PathOf([])
  {
    var root :| FoundAt(disk, path, repo, root);
    CountedBelowRoot(path);
    RightlyCountedIff(path);
    assert Parent(Elements(path))[0] == "";
    assert LeadingNames(Parent(Elements(path))) == [];
    assert Parent(FileOf(path)) == [] && root == Some([]);
  }

  /** Over every event sequence on an unchanging file system, for every session and root: the index advisory fires at
      the first Read at which it is due, and at no other event. */
  lemma {:induction false} IndexAdvisoryExact(isCode: IsCode, disk: Disk, disks: seq<Disk>, events: seq<Event>, n: nat,
                                              session: string, root: string)
    requires n < |events| && OnDisk(disks, events) && Unchanging(disk, disks, events)
    ensures FiresWhenDue(isCode, events, n, session, root)
  {
    if LogOf(isCode, events)[n].verdict == AdviseIndex {
      AdvisedIsRepository(isCode, disks, events, n);
    }
    if IndexDue(isCode, events, n, session, root) {
      RepositoryHasGit(disks[n], events[n].action.path, events[n].action.view.repo);
    }
    if IsRepository(disk, root) {
      var dir :| Clean(dir) && disk(dir) && root == PathOf(dir);
      if dir == [] {
        TopIsExact(isCode, disk, disks, events, n, session);
      } else {
        SteadyIsExact(isCode, disks, events, n, session, dir);
      }
    }
  }

  // ---------- What an unclean path or a new repository does ----------

  function CodeRead(session: string, path: string, root: string): Event {
    Event(session, ReadFile(path, Unindexed(Some(Repo(root, false, false)))))
  }

  /** How many code-file Reads the log counts below a root. */
  ghost function Logged(isCode: IsCode, events: seq<Event>, session: string, root: string): nat {
    CountCode(isCode, ReadPathsUnder(LogOf(isCode, events), session, root))
  }

  ghost predicate Advised(isCode: IsCode, events: seq<Event>, session: string, root: string) {
    IndexAdvised(LogOf(isCode, events), session, root)
  }

  /** What is logged for a code-file Read in an advisable repository. */
  lemma {:induction false} ReadIsLogged(isCode: IsCode, log: Log, s: string, path: string, own: string)
    requires s != "" && isCode(path)
    ensures var e := CodeRead(s, path, own);
            RowOf(e, Decide(isCode, log, e)) ==
            if !IndexAdvised(log, s, own) && CountCode(isCode, ReadPathsUnder(log, s, own)) >= 2
            then Row(s, ReadTool, own, AdviseIndex) else Row(s, ReadTool, path, PassThrough)
  {
  }

  /** What a code-file Read does to the log, its count below a root, and whether that root is advised. */
  lemma {:induction false} NextRead(isCode: IsCode, events: seq<Event>, s: string, path: string, own: string,
                                    root: string)
    requires s != "" && own != "" && root != "" && isCode(path)
    ensures var after := events + [CodeRead(s, path, own)];
            var fires := !Advised(isCode, events, s, own) && Logged(isCode, events, s, own) >= 2;
            var shown := if fires then own else path;
            && LogOf(isCode, after)[|events|] == Row(s, ReadTool, shown, if fires then AdviseIndex else PassThrough)
            && Logged(isCode, after, s, root) == Logged(isCode, events, s, root) +
               (if Text.HasPrefix(shown, root + "/") && isCode(shown) then 1 else 0)
            && (Advised(isCode, after, s, root) <==> Advised(isCode, events, s, root) || (fires && own == root))
  {
    var e, log := CodeRead(s, path, own), LogOf(isCode, events);
    var row := RowOf(e, Decide(isCode, log, e));
    ReadIsLogged(isCode, log, s, path, own);
    NextRow(isCode, events, e);
    ReadsStep(isCode, log, row, s, root);
    AdvisedAppend(log, row, s, root);
  }

  lemma {:induction false} NothingLogged(isCode: IsCode, session: string, root: string)
    ensures Logged(isCode, [], session, root) == 0 && !Advised(isCode, [], session, root)
  {
  }

  lemma {:induction false} NextPathRead(isCode: IsCode, events: seq<Event>, e: Event, session: string, root: string)
    ensures PathReads(isCode, events + [e], session, root) == PathReads(isCode, events, session, root) +
            if ReadsBelow(isCode, e, session, root) then 1 else 0
  {
    assert (events + [e])[..|events|] == events;
  }

  /** A repository that appears in the middle of a session. Two Reads of g and one of f are in the outer repository,
      which is advised at the third; then f's directory becomes a repository of its own and f is read twice more. The
      last Read is the third below the new root, so its advisory is due, but the log counts one Read less and passes
      it. For example: outer /a, inner /a/b, g /a/g.go and f /a/b/f.go. */
  lemma {:induction false} NewRepositoryDelays(isCode: IsCode, s: string, outer: string, inner: string, f: string,
                                               g: string)
    requires s != "" && outer != "" && inner != "" && inner != outer && isCode(f) && isCode(g)
    requires Text.HasPrefix(g, outer + "/") && !Text.HasPrefix(g, inner + "/") && !Text.HasPrefix(outer, inner + "/")
    requires Text.HasPrefix(f, outer + "/") && Text.HasPrefix(f, inner + "/")
    ensures var events := [CodeRead(s, g, outer), CodeRead(s, g, outer), CodeRead(s, f, outer),
                           CodeRead(s, f, inner), CodeRead(s, f, inner)];
            && IndexDue(isCode, events, 4, s, inner) && !DueBefore(isCode, events, 4, s, inner)
            && LogOf(isCode, events)[4].verdict == PassThrough && !FiresWhenDue(isCode, events, 4, s, inner)
  {
    var eg, eo, ei := CodeRead(s, g, outer), CodeRead(s, f, outer), CodeRead(s, f, inner);
    var e3 := [] + [eg] + [eg] + [eo];
    OuterAdvised(isCode, s, outer, inner, f, g);
    NextRead(isCode, e3, s, f, inner, inner);
    var e4 := e3 + [ei];
    assert Logged(isCode, e4, s, inner) == 1;
    NextRead(isCode, e4, s, f, inner, inner);
    assert e4 + [ei] == [eg, eg, eo, ei, ei];
    ReadsBelowInner(isCode, s, outer, inner, f, g);
  }

  /** The first three Reads leave nothing counted below the inner root. */
  lemma {:induction false} OuterAdvised(isCode: IsCode, s: string, outer: string, inner: string, f: string, g: string)
    requires s != "" && outer != "" && inner != "" && inner != outer && isCode(f) && isCode(g)
    requires Text.HasPrefix(g, outer + "/") && !Text.HasPrefix(g, inner + "/") && !Text.HasPrefix(outer, inner + "/")
    ensures var events := [] + [CodeRead(s, g, outer)] + [CodeRead(s, g, outer)] + [CodeRead(s, f, outer)];
            Logged(isCode, events, s, inner) == 0 && !Advised(isCode, events, s, inner)
  {
    var eg := CodeRead(s, g, outer);
    var e1 := [] + [eg];
    var e2 := e1 + [eg];
    NothingLogged(isCode, s, outer);
    NothingLogged(isCode, s, inner);
    NextRead(isCode, [], s, g, outer, outer);
    NextRead(isCode, [], s, g, outer, inner);
    assert Logged(isCode, e1, s, outer) == 1 && Logged(isCode, e1, s, inner) == 0;
    NextRead(isCode, e1, s, g, outer, outer);
    NextRead(isCode, e1, s, g, outer, inner);
    assert Logged(isCode, e2, s, outer) == 2 && Logged(isCode, e2, s, inner) == 0;
    NextRead(isCode, e2, s, f, outer, inner);
  }

  lemma {:induction false} ReadsBelowInner(isCode: IsCode, s: string, outer: string, inner: string, f: string,
                                           g: string)
    requires s != "" && inner != "" && inner != outer && isCode(f) && isCode(g)
    requires !Text.HasPrefix(g, inner + "/") && Text.HasPrefix(f, inner + "/")
    ensures var events := [CodeRead(s, g, outer), CodeRead(s, g, outer), CodeRead(s, f, outer),
                           CodeRead(s, f, inner), CodeRead(s, f, inner)];
            IndexDue(isCode, events, 4, s, inner) && !DueBefore(isCode, events, 4, s, inner)
  {
    var eg, eo, ei := CodeRead(s, g, outer), CodeRead(s, f, outer), CodeRead(s, f, inner);
    var events := [eg, eg, eo, ei, ei];
    NextPathRead(isCode, [], eg, s, inner);
    assert [] + [eg] == [eg];
    NextPathRead(isCode, [eg], eg, s, inner);
    assert [eg] + [eg] == [eg, eg];
    NextPathRead(isCode, [eg, eg], eo, s, inner);
    assert [eg, eg] + [eo] == [eg, eg, eo] == events[..3];
    NextPathRead(isCode, [eg, eg, eo], ei, s, inner);
    assert [eg, eg, eo] + [ei] == [eg, eg, eo, ei] == events[..4];
  }

  /** The path /b/../a/x.go counts below /b although its file is in /a: two such Reads and the first Read of a file in
      /b, and /b is advised. */
  lemma {:induction false} DetourAdvises(isCode: IsCode, disk: Disk, s: string, x: string, y: string)
    requires x == Slashed(DETOUR) && y == Slashed(["b", "y.go"]) && s != "" && isCode(x) && isCode(y)
    requires forall dir :: disk(dir) <==> dir == ["a"] || dir == ["b"]
    ensures var a, b := PathOf(["a"]), PathOf(["b"]);
            var events := [CodeRead(s, x, a), CodeRead(s, x, a), CodeRead(s, y, b)];
            && OnDisk([disk, disk, disk], events)
            && FileIn(x, ["a"]) && !FileIn(x, ["b"]) && FileIn(y, ["b"])
            && LogOf(isCode, events)[2] == Row(s, ReadTool, b, AdviseIndex)
  {
    var a, b := PathOf(["a"]), PathOf(["b"]);
    DetourFound(disk, x, y);
    TwiceThenOnce(disk, s, x, y, a, b);
    UncleanPathCounts(isCode, s, a, b, x, y);
  }

  lemma {:induction false} DetourFound(disk: Disk, x: string, y: string)
    requires x == Slashed(DETOUR) && y == Slashed(["b", "y.go"]) && disk(["a"]) && disk(["b"])
    ensures Found(disk, x, Some(Repo(PathOf(["a"]), false, false)))
    ensures Found(disk, y, Some(Repo(PathOf(["b"]), false, false)))
    ensures FileIn(x, ["a"]) && !FileIn(x, ["b"]) && FileIn(y, ["b"])
    ensures Text.HasPrefix(x, PathOf(["b"]) + "/") && !Text.HasPrefix(x, PathOf(["a"]) + "/")
  {
    DetourMiscounted();
    assert Parent(["a", "x.go"]) == ["a"] && Parent(["b", "y.go"]) == ["b"];
    assert Clean(["b", "y.go"]);
    CleanIsRightlyCounted(["b", "y.go"]);
    FoundInParent(disk, x);
    FoundInParent(disk, y);
  }

  lemma {:induction false} TwiceThenOnce(disk: Disk, s: string, x: string, y: string, a: string, b: string)
    requires Found(disk, x, Some(Repo(a, false, false))) && Found(disk, y, Some(Repo(b, false, false)))
    ensures OnDisk([disk, disk, disk], [CodeRead(s, x, a), CodeRead(s, x, a), CodeRead(s, y, b)])
  {
  }

  lemma {:induction false} FoundInParent(disk: Disk, path: string)
    requires Absolute(path) && disk(Parent(FileOf(path)))
    ensures Found(disk, path, Some(Repo(PathOf(Parent(FileOf(path))), false, false)))
  {
    var dir := Parent(FileOf(path));
    assert FoundAt(disk, path, Some(Repo(PathOf(dir), false, false)), Some(dir));
  }

  /** More generally, two Reads by a path that only spells out b, and the first Read in b's own repository. */
  lemma {:induction false} UncleanPathCounts(isCode: IsCode, s: string, a: string, b: string, x: string, y: string)
    requires s != "" && a != "" && b != "" && isCode(x) && isCode(y)
    requires Text.HasPrefix(x, b + "/") && !Text.HasPrefix(x, a + "/")
    ensures LogOf(isCode, [CodeRead(s, x, a), CodeRead(s, x, a), CodeRead(s, y, b)])[2]
         == Row(s, ReadTool, b, AdviseIndex)
  {
    var ex, ey := CodeRead(s, x, a), CodeRead(s, y, b);
    var e2 := [] + [ex] + [ex];
    UncleanLogged(isCode, s, a, b, x);
    NextRead(isCode, e2, s, y, b, b);
    assert e2 + [ey] == [ex, ex, ey];
  }

  lemma {:induction false} UncleanLogged(isCode: IsCode, s: string, a: string, b: string, x: string)
    requires s != "" && a != "" && b != "" && isCode(x) && Text.HasPrefix(x, b + "/") && !Text.HasPrefix(x, a + "/")
    ensures var events := [] + [CodeRead(s, x, a)] + [CodeRead(s, x, a)];
            Logged(isCode, events, s, b) == 2 && !Advised(isCode, events, s, b)
  {
    var e1 := [] + [CodeRead(s, x, a)];
    NothingLogged(isCode, s, a);
    NothingLogged(isCode, s, b);
    NextRead(isCode, [], s, x, a, a);
    NextRead(isCode, [], s, x, a, b);
    assert Logged(isCode, e1, s, a) == 0 && Logged(isCode, e1, s, b) == 1;
    NextRead(isCode, e1, s, x, a, b);
  }
}
