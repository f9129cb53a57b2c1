/** The interactive installer: the state machine of cmd/pinch/setup_model.go under the key loop of
    cmd/pinch/setup.go. Terminal and file effects are left to the apply step, which is recorded. */
module SetupWizard {

  datatype Target = Target(name: string, supportsGlobal: bool, alwaysGlobal: bool)
  datatype Screen = Hosts | Options | Confirm | Done
  datatype OptionKey = GlobalKey | HookKey | GitHooksKey
  datatype Key = KeyNone | KeyUp | KeyDown | KeyEnter | KeySpace | KeyQuit | KeyBack | KeyAll | KeyDetected
    | KeySelNone | KeyIndex

  const CLAUDE := "claude"

  /** What one run of the apply step was asked to install. */
  datatype Plan = Plan(targets: seq<Target>, global: bool, claudeHook: bool, gitHooks: bool)

  /** What the wizard is started with. */
  datatype Config = Config(targets: seq<Target>, detected: set<string>, inGitRepo: bool)

  /** The wizard's state, with the apply steps run so far. */
  datatype State = State(screen: Screen, selected: Selection, cursor: int, optGlobal: bool, optHook: bool,
                         optGitHooks: bool, applied: seq<Plan>, indexAfter: bool, quit: bool)

  // ---------- The transitions ----------

  type Selection = map<string, bool>

  predicate Selected(m: Selection, name: string) { name in m && m[name] }

  predicate AnySelected(c: Config, m: Selection) { exists t :: t in c.targets && Selected(m, t.name) }

  predicate AnySupportsGlobal(c: Config, m: Selection) {
    exists t :: t in c.targets && Selected(m, t.name) && t.supportsGlobal && !t.alwaysGlobal
  }

  function OptionKeys(c: Config, m: Selection): seq<OptionKey> {
    (if AnySupportsGlobal(c, m) then [GlobalKey] else []) +
    (if Selected(m, CLAUDE) then [HookKey] else []) +
    (if c.inGitRepo then [GitHooksKey] else [])
  }

  function ItemCount(c: Config, s: State): nat {
    match s.screen
    case Hosts => |c.targets|
    case Options => |OptionKeys(c, s.selected)|
    case _ => 0
  }

  function MoveCursor(c: Config, s: State, delta: int): State {
    var n, at := ItemCount(c, s), s.cursor + delta;
    s.(cursor := if n == 0 || at < 0 then 0 else if at > n - 1 then n - 1 else at)
  }

  function Toggle(c: Config, s: State): State {
    match s.screen
    case Hosts =>
      if 0 <= s.cursor < |c.targets| then
        var name := c.targets[s.cursor].name;
        s.(selected := s.selected[name := !Selected(s.selected, name)])
      else s
    case Options =>
      var keys := OptionKeys(c, s.selected);
      if 0 <= s.cursor < |keys| then Flip(s, keys[s.cursor]) else s
    case _ => s
  }

  function Flip(s: State, key: OptionKey): State {
    s.(optGlobal := s.optGlobal != (key == GlobalKey),
       optHook := s.optHook != (key == HookKey),
       optGitHooks := s.optGitHooks != (key == GitHooksKey))
  }

  function Names(ts: seq<Target>): set<string> { set t | t in ts :: t.name }

  /** Give every target named in `names` the value it has in `chosen`. */
  function Mark(selected: Selection, names: set<string>, chosen: set<string>): Selection {
    map n | n in selected.Keys + names :: if n in names then n in chosen else selected[n]
  }

  function SelectAll(c: Config, s: State): State {
    s.(selected := Mark(s.selected, Names(c.targets), Names(c.targets)))
  }
  function SelectDetected(c: Config, s: State): State { s.(selected := Mark(s.selected, Names(c.targets), c.detected)) }
  function SelectNone(s: State): State { s.(selected := map n | n in s.selected :: false) }

  function Advance(c: Config, s: State): State {
    match s.screen
    case Hosts =>
      if !AnySelected(c, s.selected) then s
      else s.(screen := if OptionKeys(c, s.selected) != [] then Options else Confirm, cursor := 0)
    case Options => s.(screen := Confirm, cursor := 0)
    case _ => s
  }

  function Back(c: Config, s: State): State {
    match s.screen
    case Options => s.(screen := Hosts, cursor := 0)
    case Confirm => s.(screen := if OptionKeys(c, s.selected) != [] then Options else Hosts, cursor := 0)
    case _ => s
  }

  /** The checked targets in registry order. */
  function Checked(ts: seq<Target>, m: Selection): (r: seq<Target>)
    ensures forall t :: t in r <==> t in ts && Selected(m, t.name)
  {
    if ts == [] then []
    else (if Selected(m, ts[0].name) then [ts[0]] else []) + Checked(ts[1..], m)
  }

  lemma {:induction false} CheckedStep(ts: seq<Target>, m: Selection, i: nat, done: seq<Target>)
    requires i < |ts|
    ensures done + Checked(ts[i..], m)
         == (if Selected(m, ts[i].name) then done + [ts[i]] else done) + Checked(ts[i + 1..], m)
  {
    assert ts[i..][1..] == ts[i + 1..];
  }

  /** What the confirm screen announces. */
  function PlanOf(c: Config, s: State): Plan {
    Plan(Checked(c.targets, s.selected), s.optGlobal, Selected(s.selected, CLAUDE) && s.optHook, s.optGitHooks)
  }

  /** applySetup, then the done screen. */
  function Apply(c: Config, s: State): State {
    s.(applied := s.applied + [PlanOf(c, s)], screen := Done, cursor := 0)
  }

  function HostsKey(c: Config, s: State, k: Key): State {
    match k
    case KeyUp => MoveCursor(c, s, -1)
    case KeyDown => MoveCursor(c, s, 1)
    case KeySpace => Toggle(c, s)
    case KeyAll => SelectAll(c, s)
    case KeyDetected => SelectDetected(c, s)
    case KeySelNone => SelectNone(s)
    case KeyEnter => Advance(c, s)
    case _ => s
  }

  function OptionsKey(c: Config, s: State, k: Key): State {
    match k
    case KeyUp => MoveCursor(c, s, -1)
    case KeyDown => MoveCursor(c, s, 1)
    case KeySpace => Toggle(c, s)
    case KeyEnter => Advance(c, s)
    case KeyBack => Back(c, s)
    case _ => s
  }

  function ConfirmKey(c: Config, s: State, k: Key): State {
    match k
    case KeyEnter => Apply(c, s)
    case KeyBack => Back(c, s)
    case _ => s
  }

  function Handle(c: Config, s: State, k: Key): State {
    match s.screen
    case Hosts => HostsKey(c, s, k)
    case Options => OptionsKey(c, s, k)
    case Confirm => ConfirmKey(c, s, k)
    case Done => s.(indexAfter := s.indexAfter || k == KeyIndex)
  }

  /** The key ends the loop. */
  predicate Stops(s: State, k: Key) {
    if s.screen == Done then k == KeyEnter || k == KeyQuit || k == KeyIndex else k == KeyQuit
  }

  function Step(c: Config, s: State, k: Key): State {
    if k == KeyQuit && s.screen != Done then s.(quit := true) else Handle(c, s, k)
  }

  /** The state after these keys, or at the key that ended the loop. */
  function Run(c: Config, s: State, keys: seq<Key>): State
    decreases |keys|
  {
    if keys == [] then s
    else if Stops(s, keys[0]) then Step(c, s, keys[0])
    else Run(c, Step(c, s, keys[0]), keys[1..])
  }

  function Start(c: Config): State {
    State(Hosts, map n | n in c.detected :: true, 0, false, true, false, [], false, false)
  }

  // ---------- What each key does ----------

  /** The wizard starts on the hosts screen with exactly the detected targets selected and the hook option on. */
  lemma {:induction false} StartIs(c: Config)
    ensures var s := Start(c);
            && s.screen == Hosts && s.cursor == 0 && (forall name :: Selected(s.selected, name) <==> name in c.detected)
            && !s.optGlobal && s.optHook && !s.optGitHooks && s.applied == [] && !s.indexAfter && !s.quit
  {
  }

  /** The cursor moves by one row and stops at the first and the last. */
  lemma {:induction false} ArrowsMove(c: Config, s: State, k: Key)
    requires (s.screen == Hosts || s.screen == Options) && (k == KeyUp || k == KeyDown)
    ensures var n := if s.screen == Hosts then |c.targets| else |OptionKeys(c, s.selected)|;
            var cursor := Handle(c, s, k).cursor;
            && Handle(c, s, k) == s.(cursor := cursor)
            && (0 <= s.cursor < n && k == KeyDown ==> cursor == if s.cursor == n - 1 then s.cursor else s.cursor + 1)
            && (0 <= s.cursor < n && k == KeyUp ==> cursor == if s.cursor == 0 then 0 else s.cursor - 1)
            && (n == 0 ==> cursor == 0)
  {
  }

  /** Space on the hosts screen flips the box of the target under the cursor and no other. */
  lemma {:induction false} SpaceOnHosts(c: Config, s: State, name: string)
    requires s.screen == Hosts && 0 <= s.cursor < |c.targets|
    ensures var s' := Handle(c, s, KeySpace);
            && s' == s.(selected := s'.selected)
            && (Selected(s'.selected, name) <==> Selected(s.selected, name) != (name == c.targets[s.cursor].name))
  {
  }

  /** The bulk keys: all targets, just the detected ones, or nothing at all. Other names stay as they are, except that
      the last key clears them too. */
  lemma {:induction false} BulkOnHosts(c: Config, s: State, name: string)
    requires s.screen == Hosts
    ensures var all, detected, none := Handle(c, s, KeyAll), Handle(c, s, KeyDetected), Handle(c, s, KeySelNone);
            var listed := exists t :: t in c.targets && t.name == name;
            && all == s.(selected := all.selected) && detected == s.(selected := detected.selected)
            && none == s.(selected := none.selected)
            && (Selected(all.selected, name) <==> listed || Selected(s.selected, name))
            && (Selected(detected.selected, name) <==>
                if listed then name in c.detected else Selected(s.selected, name))
            && !Selected(none.selected, name)
  {
    assert name in Names(c.targets) <==> exists t :: t in c.targets && t.name == name;
  }

  /** Enter on the hosts screen does nothing while no target is selected, and otherwise goes on to the options, or past
      them if none applies. Options apply for a selected target that can be global, for claude, and in a repository. */
  lemma {:induction false} EnterOnHosts(c: Config, s: State)
    requires s.screen == Hosts
    ensures var any := exists t :: t in c.targets && Selected(s.selected, t.name);
            var options := || Selected(s.selected, "claude") || c.inGitRepo
                           || exists t :: t in c.targets && Selected(s.selected, t.name) &&
                                          t.supportsGlobal && !t.alwaysGlobal;
            Handle(c, s, KeyEnter) ==
            if !any then s else s.(screen := if options then Options else Confirm, cursor := 0)
  {
  }

  /** Space on the options screen flips the option under the cursor and no other. The options that apply are listed in
      this order: global, hook, git hooks. */
  lemma {:induction false} SpaceOnOptions(c: Config, s: State)
    requires s.screen == Options && 0 <= s.cursor
    ensures var global := exists t :: t in c.targets && Selected(s.selected, t.name) &&
                                      t.supportsGlobal && !t.alwaysGlobal;
            var hook := Selected(s.selected, "claude");
            var s' := Handle(c, s, KeySpace);
            var hookRow := if global then 1 else 0;
            var gitRow := hookRow + if hook then 1 else 0;
            && s' == s.(optGlobal := s'.optGlobal, optHook := s'.optHook, optGitHooks := s'.optGitHooks)
            && (s'.optGlobal != s.optGlobal <==> global && s.cursor == 0)
            && (s'.optHook != s.optHook <==> hook && s.cursor == hookRow)
            && (s'.optGitHooks != s.optGitHooks <==> c.inGitRepo && s.cursor == gitRow)
  {
  }

  /** Enter on the options screen goes on, Back goes to the hosts; Back on the confirm screen goes to the options, or to
      the hosts if none applies. */
  lemma {:induction false} MovesBetweenScreens(c: Config, s: State)
    ensures s.screen == Options ==> Handle(c, s, KeyEnter) == s.(screen := Confirm, cursor := 0)
    ensures s.screen == Options ==> Handle(c, s, KeyBack) == s.(screen := Hosts, cursor := 0)
    ensures s.screen == Confirm ==>
              var options := || Selected(s.selected, "claude") || c.inGitRepo
                             || exists t :: t in c.targets && Selected(s.selected, t.name) &&
                                            t.supportsGlobal && !t.alwaysGlobal;
              Handle(c, s, KeyBack) == s.(screen := if options then Options else Hosts, cursor := 0)
  {
  }

  /** Enter on the confirm screen applies one plan: the selected targets, the global and git options as they stand, and
      the hook only with claude selected. */
  lemma {:induction false} EnterOnConfirm(c: Config, s: State)
    requires s.screen == Confirm
    ensures var s' := Handle(c, s, KeyEnter);
            && |s'.applied| == |s.applied| + 1
            && s' == s.(screen := Done, cursor := 0, applied := s.applied + [s'.applied[|s.applied|]])
            && var plan := s'.applied[|s.applied|];
               && plan.global == s.optGlobal && plan.gitHooks == s.optGitHooks
               && plan.claudeHook == (Selected(s.selected, "claude") && s.optHook)
               && (forall t :: t in plan.targets <==> t in c.targets && Selected(s.selected, t.name))
  {
  }

  /** Keys that mean nothing on a screen change nothing there. */
  lemma {:induction false} OtherKeys(c: Config, s: State, k: Key)
    requires || (s.screen == Hosts && (k == KeyNone || k == KeyBack || k == KeyIndex))
             || (s.screen == Options &&
                 (k == KeyNone || k == KeyAll || k == KeyDetected || k == KeySelNone || k == KeyIndex))
             || (s.screen == Confirm && k != KeyEnter && k != KeyBack)
             || (s.screen == Done && k != KeyIndex)
    ensures Handle(c, s, k) == s
  {
  }

  /** A run: quitting before the done screen cancels, and on the done screen Enter, Quit and Index end it, the last with
      a note to index. Any other key is handled and the run goes on. */
  lemma {:induction false} RunForms(c: Config, s: State, k: Key, rest: seq<Key>)
    ensures Run(c, s, []) == s
    ensures s.screen != Done && k == KeyQuit ==> Run(c, s, [k] + rest) == s.(quit := true)
    ensures s.screen == Done && (k == KeyEnter || k == KeyQuit) ==> Run(c, s, [k] + rest) == s
    ensures s.screen == Done && k == KeyIndex ==> Run(c, s, [k] + rest) == s.(indexAfter := true)
    ensures !(k == KeyQuit || (s.screen == Done && (k == KeyEnter || k == KeyIndex))) ==>
              Run(c, s, [k] + rest) == Run(c, Handle(c, s, k), rest)
  {
    assert ([k] + rest)[1..] == rest;
  }

  // ---------- What every run keeps ----------

  ghost predicate Invariant(c: Config, s: State) {
    && 0 <= s.cursor && (s.cursor == 0 || s.cursor < ItemCount(c, s))
    && (s.screen != Hosts ==> AnySelected(c, s.selected))
    && (s.screen == Options ==> OptionKeys(c, s.selected) != [])
    && (s.optGitHooks ==> c.inGitRepo)
    && s.applied == (if s.screen == Done then [PlanOf(c, s)] else [])
    && (s.screen == Done ==> !s.quit)
  }

  /** Each option is listed exactly when it applies. */
  lemma {:induction false} OptionListed(c: Config, m: Selection)
    ensures GlobalKey in OptionKeys(c, m) <==> AnySupportsGlobal(c, m)
    ensures HookKey in OptionKeys(c, m) <==> Selected(m, CLAUDE)
    ensures GitHooksKey in OptionKeys(c, m) <==> c.inGitRepo
  {
    var g := if AnySupportsGlobal(c, m) then [GlobalKey] else [];
    var h := if Selected(m, CLAUDE) then [HookKey] else [];
    var r := if c.inGitRepo then [GitHooksKey] else [];
    assert OptionKeys(c, m) == g + h + r;
    assert forall k :: k in g + h + r <==> k in g || k in h || k in r;
  }

  lemma {:induction false} FlipKeeps(c: Config, s: State, key: OptionKey)
    requires Invariant(c, s) && s.screen == Options && (key == GitHooksKey ==> c.inGitRepo)
    ensures Invariant(c, Flip(s, key))
  {
  }

  lemma {:induction false} ToggleKeeps(c: Config, s: State)
    requires Invariant(c, s)
    ensures Invariant(c, Toggle(c, s))
  {
    if s.screen == Options && 0 <= s.cursor < |OptionKeys(c, s.selected)| {
      var key := OptionKeys(c, s.selected)[s.cursor];
      OptionListed(c, s.selected);
      assert key in OptionKeys(c, s.selected);
      FlipKeeps(c, s, key);
    }
  }

  lemma {:induction false} MoveKeeps(c: Config, s: State, delta: int)
    requires Invariant(c, s)
    ensures Invariant(c, MoveCursor(c, s, delta))
  {
  }

  lemma {:induction false} AdvanceKeeps(c: Config, s: State)
    requires Invariant(c, s)
    ensures Invariant(c, Advance(c, s)) && Invariant(c, Back(c, s))
  {
  }

  /** On the hosts screen the selection may become anything. */
  lemma {:induction false} SelectKeeps(c: Config, s: State, s': State)
    requires Invariant(c, s) && s.screen == Hosts && s' == s.(selected := s'.selected)
    ensures Invariant(c, s')
  {
  }

  lemma {:induction false} SelectionKeeps(c: Config, s: State)
    requires Invariant(c, s) && s.screen == Hosts
    ensures Invariant(c, SelectAll(c, s)) && Invariant(c, SelectDetected(c, s)) && Invariant(c, SelectNone(s))
  {
    SelectKeeps(c, s, SelectAll(c, s));
    SelectKeeps(c, s, SelectDetected(c, s));
    SelectKeeps(c, s, SelectNone(s));
  }

  lemma {:induction false} HostsKeeps(c: Config, s: State, k: Key)
    requires Invariant(c, s) && s.screen == Hosts
    ensures Invariant(c, HostsKey(c, s, k)) && HostsKey(c, s, k).quit == s.quit
  {
    match k
    case KeyUp => MoveKeeps(c, s, -1);
    case KeyDown => MoveKeeps(c, s, 1);
    case KeySpace => ToggleKeeps(c, s);
    case KeyAll => SelectionKeeps(c, s);
    case KeyDetected => SelectionKeeps(c, s);
    case KeySelNone => SelectionKeeps(c, s);
    case KeyEnter => AdvanceKeeps(c, s);
    case _ =>
  }

  lemma {:induction false} OptionsKeeps(c: Config, s: State, k: Key)
    requires Invariant(c, s) && s.screen == Options
    ensures Invariant(c, OptionsKey(c, s, k)) && OptionsKey(c, s, k).quit == s.quit
  {
    match k
    case KeyUp => MoveKeeps(c, s, -1);
    case KeyDown => MoveKeeps(c, s, 1);
    case KeySpace => ToggleKeeps(c, s);
    case KeyEnter => AdvanceKeeps(c, s);
    case KeyBack => AdvanceKeeps(c, s);
    case _ =>
  }

  lemma {:induction false} ConfirmKeeps(c: Config, s: State, k: Key)
    requires Invariant(c, s) && s.screen == Confirm && !s.quit
    ensures Invariant(c, ConfirmKey(c, s, k)) && ConfirmKey(c, s, k).quit == s.quit
  {
    AdvanceKeeps(c, s);
  }

  lemma {:induction false} StepKeeps(c: Config, s: State, k: Key)
    requires Invariant(c, s) && !s.quit
    ensures Invariant(c, Step(c, s, k)) && (Step(c, s, k).quit ==> Stops(s, k))
  {
    if k != KeyQuit || s.screen == Done {
      match s.screen
      case Hosts => HostsKeeps(c, s, k);
      case Options => OptionsKeeps(c, s, k);
      case Confirm => ConfirmKeeps(c, s, k);
      case Done =>
    }
  }

  /** Whatever keys are typed: the cursor is on a row, the wizard is past the hosts screen only with a target
      selected and on the options screen only when an option applies, the apply step has run at most once and
      exactly when the done screen shows, with the plan the selection spells out, and git hooks are only ever
      chosen inside a repository. */
  lemma {:induction false} EveryRunKeeps(c: Config, s: State, keys: seq<Key>)
    requires Invariant(c, s) && !s.quit
    ensures Invariant(c, Run(c, s, keys))
    decreases |keys|
  {
    if keys != [] {
      StepKeeps(c, s, keys[0]);
      if !Stops(s, keys[0]) {
        EveryRunKeeps(c, Step(c, s, keys[0]), keys[1..]);
      }
    }
  }

  lemma {:induction false} WizardIsSafe(c: Config, keys: seq<Key>)
    ensures var s := Run(c, Start(c), keys);
            && Invariant(c, s)
            && |s.applied| <= 1
            && (s.quit ==> s.applied == [])
            && (s.applied != [] ==> s.applied[0].targets != [] && (s.applied[0].gitHooks ==> c.inGitRepo))
            && (s.applied != [] && s.applied[0].claudeHook ==> Selected(s.selected, "claude"))
  {
    EveryRunKeeps(c, Start(c), keys);
    var s := Run(c, Start(c), keys);
    if s.screen == Done {
      var t :| t in c.targets && Selected(s.selected, t.name);
      assert t in Checked(c.targets, s.selected);
    }
  }

  /** Going back undoes an advance that changed the screen, for every state a run can reach. */
  lemma {:induction false} BackUndoesAdvance(c: Config, s: State)
    requires Invariant(c, s) && Advance(c, s).screen != s.screen
    ensures Back(c, Advance(c, s)).screen == s.screen
    ensures Back(c, Advance(c, s)) == s.(cursor := 0)
  {
  }

  // ---------- The code ----------

  class SetupModel {
    const c: Config
    var screen: Screen
    var selected: Selection
    var cursor: int
    var optGlobal: bool
    var optHook: bool
    var optGitHooks: bool
    var applied: seq<Plan>
    var indexAfter: bool
    var quit: bool

    ghost function View(): State
      reads this
    {
      State(screen, selected, cursor, optGlobal, optHook, optGitHooks, applied, indexAfter, quit)
    }

    /** newSetupModel: every detected target starts checked. */
    constructor (c: Config)
      ensures this.c == c && View() == Start(c)
    {
      this.c := c;
      screen, cursor, selected := Hosts, 0, map n | n in c.detected :: true;
      optGlobal, optHook, optGitHooks := false, true, false;
      applied, indexAfter, quit := [], false, false;
    }

    method SomeSelected() returns (any: bool)
      ensures any == AnySelected(c, selected)
    {
      for i := 0 to |c.targets|
        invariant forall k | 0 <= k < i :: !Selected(selected, c.targets[k].name)
      {
        if Selected(selected, c.targets[i].name) {
          return true;
        }
      }
      return false;
    }

    method MoveBy(delta: int)
      modifies this`cursor
      ensures View() == MoveCursor(c, old(View()), delta)
    {
      var n := match screen
        case Hosts => |c.targets|
        case Options => |OptionKeys(c, selected)|
        case _ => 0;
      if n == 0 {
        cursor := 0;
        return;
      }
      cursor := cursor + delta;
      if cursor < 0 {
        cursor := 0;
      }
      if cursor > n - 1 {
        cursor := n - 1;
      }
    }

    method ToggleAtCursor()
      modifies this`selected, this`optGlobal, this`optHook, this`optGitHooks
      ensures View() == Toggle(c, old(View()))
    {
      match screen {
        case Hosts =>
          if 0 <= cursor < |c.targets| {
            var name := c.targets[cursor].name;
            selected := selected[name := !Selected(selected, name)];
          }
        case Options =>
          var keys := OptionKeys(c, selected);
          if 0 <= cursor < |keys| {
            match keys[cursor] {
              case GlobalKey => optGlobal := !optGlobal;
              case HookKey => optHook := !optHook;
              case GitHooksKey => optGitHooks := !optGitHooks;
            }
          }
        case _ =>
      }
    }

    /** selectAll and selectDetected: write every registered target's box. */
    method CheckTargets(chosen: set<string>)
      modifies this`selected
      ensures selected == Mark(old(selected), Names(c.targets), chosen)
    {
      for i := 0 to |c.targets|
        invariant forall n :: n in selected <==> n in old(selected) || n in Names(c.targets[..i])
        invariant forall n | n in selected ::
          selected[n] == if n in Names(c.targets[..i]) then n in chosen else old(selected)[n]
      {
        var name := c.targets[i].name;
        assert c.targets[..i + 1] == c.targets[..i] + [c.targets[i]];
        assert forall n :: n in Names(c.targets[..i + 1]) <==> n in Names(c.targets[..i]) || n == name;
        selected := selected[name := name in chosen];
      }
      assert c.targets[..|c.targets|] == c.targets;
    }

    method CheckNone()
      modifies this`selected
      ensures View() == SelectNone(old(View()))
    {
      var rest := selected.Keys;
      while rest != {}
        invariant rest <= selected.Keys == old(selected).Keys
        invariant forall n | n in selected && n !in rest :: !selected[n]
        decreases rest
      {
        var n :| n in rest;
        selected := selected[n := false];
        rest := rest - {n};
      }
    }

    /** advance; the result says that the caller should run the apply step. */
    method GoForward() returns (runApply: bool)
      modifies this`screen, this`cursor
      ensures View() == Advance(c, old(View()))
      ensures runApply <==> old(screen) == Confirm
    {
      match screen {
        case Hosts =>
          var any := SomeSelected();
          if !any {
            return false;
          }
          screen := if OptionKeys(c, selected) != [] then Options else Confirm;
          cursor := 0;
        case Options => screen, cursor := Confirm, 0;
        case Confirm => return true;
        case Done =>
      }
      return false;
    }

    method GoBack()
      modifies this`screen, this`cursor
      ensures View() == Back(c, old(View()))
    {
      match screen {
        case Options => screen, cursor := Hosts, 0;
        case Confirm =>
          screen := if OptionKeys(c, selected) != [] then Options else Hosts;
          cursor := 0;
        case _ =>
      }
    }

    /** selectedTargets. */
    method SelectedTargets() returns (out: seq<Target>)
      ensures out == Checked(c.targets, selected)
    {
      out := [];
      for i := 0 to |c.targets|
        invariant out + Checked(c.targets[i..], selected) == Checked(c.targets, selected)
      {
        CheckedStep(c.targets, selected, i, out);
        if Selected(selected, c.targets[i].name) {
          out := out + [c.targets[i]];
        }
      }
    }

    method HandleHosts(k: Key)
      requires screen == Hosts
      modifies this
      ensures View() == HostsKey(c, old(View()), k)
    {
      match k {
        case KeyUp => MoveBy(-1);
        case KeyDown => MoveBy(1);
        case KeySpace => ToggleAtCursor();
        case KeyAll => CheckTargets(Names(c.targets));
        case KeyDetected => CheckTargets(c.detected);
        case KeySelNone => CheckNone();
        case KeyEnter => var _ := GoForward();
        case _ =>
      }
    }

    method HandleOptions(k: Key)
      requires screen == Options
      modifies this
      ensures View() == OptionsKey(c, old(View()), k)
    {
      match k {
        case KeyUp => MoveBy(-1);
        case KeyDown => MoveBy(1);
        case KeySpace => ToggleAtCursor();
        case KeyEnter => var _ := GoForward();
        case KeyBack => GoBack();
        case _ =>
      }
    }

    method HandleConfirm(k: Key)
      requires screen == Confirm
      modifies this
      ensures View() == ConfirmKey(c, old(View()), k)
    {
      match k {
        case KeyEnter =>
          var targets := SelectedTargets();
          applied := applied + [Plan(targets, optGlobal, Selected(selected, CLAUDE) && optHook, optGitHooks)];
          screen, cursor := Done, 0;
        case KeyBack => GoBack();
        case _ =>
      }
    }

    /** runSetupLoop, fed these keys. */
    method RunSetupLoop(keys: seq<Key>)
      modifies this
      ensures View() == Run(c, old(View()), keys)
      ensures old(Invariant(c, View()) && !quit) ==> Invariant(c, View())
    {
      if Invariant(c, View()) && !quit {
        EveryRunKeeps(c, View(), keys);
      }
      for i := 0 to |keys|
        invariant Run(c, View(), keys[i..]) == Run(c, old(View()), keys)
      {
        var k := keys[i];
        assert keys[i..][0] == k && keys[i..][1..] == keys[i + 1..];
        if k == KeyQuit && screen != Done {
          quit := true;
          return;
        }
        match screen {
          case Hosts => HandleHosts(k);
          case Options => HandleOptions(k);
          case Confirm => HandleConfirm(k);
          case Done =>
            if k == KeyEnter || k == KeyQuit {
              return;
            }
            if k == KeyIndex {
              indexAfter := true;
              return;
            }
        }
      }
    }
  }
}
