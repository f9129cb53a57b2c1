/** Installing the hook: `mergePincherHook` of cmd/pinch/init_hook.go, on a JSON settings tree. */
module HookMerge {
  import Text

  datatype Json =
    | Null
    | Bool(b: bool)
    | Number(n: real)
    | Str(s: string)
    | Arr(items: seq<Json>)
    | Obj(fields: map<string, Json>)

  type Fields = map<string, Json>

  const HOOKS := "hooks"
  const MATCHER := "matcher"
  const COMMAND := "command"
  const PRE_TOOL_USE := "PreToolUse"
  const PRE_COMPACT := "PreCompact"
  const OWN_COMMAND := "pincher hook-check"
  const MANAGED_MATCHER := "Read|Grep|Glob|Task"

  predicate EarlierMatcher(m: string) { m == "Read|Grep" || m == "Read|Grep|Glob" }

  lemma {:induction false} NamesDiffer()
    ensures PRE_TOOL_USE != PRE_COMPACT && MATCHER != HOOKS && !EarlierMatcher(MANAGED_MATCHER)
  {
    assert PRE_TOOL_USE[3] == 'T' && PRE_COMPACT[3] == 'C';
  }

  // ---------- Reading the tree ----------

  /** A map[string]any assertion: nil for anything but an object. */
  function ObjectAt(fields: Fields, key: string): Fields {
    if key in fields && fields[key].Obj? then fields[key].fields else map[]
  }

  /** A []any assertion: nil for anything but a list. */
  function ListAt(fields: Fields, key: string): seq<Json> {
    if key in fields && fields[key].Arr? then fields[key].items else []
  }

  /** A string assertion: "" for anything but a string. */
  function TextAt(fields: Fields, key: string): string {
    if key in fields && fields[key].Str? then fields[key].s else ""
  }

  ghost predicate OwnHook(h: Json) {
    h.Obj? && Text.Occurs(OWN_COMMAND, TextAt(h.fields, COMMAND))
  }

  /** An entry that runs a pincher hook-check command. */
  ghost predicate OwnEntry(e: Json) {
    e.Obj? && exists h :: h in ListAt(e.fields, HOOKS) && OwnHook(h)
  }

  ghost predicate HasOwn(entries: seq<Json>) { exists e :: e in entries && OwnEntry(e) }

  /** init_hook.go `contains`. */
  method Contains(haystack: string, needle: string) returns (found: bool)
    ensures found <==> Text.Occurs(needle, haystack)
  {
    if needle == "" {
      assert Text.OccursAt(needle, haystack, 0);
      return true;
    }
    var i := 0;
    while i + |needle| <= |haystack|
      invariant forall k: nat | k < i :: !Text.OccursAt(needle, haystack, k)
    {
      if haystack[i..i + |needle|] == needle {
        assert Text.OccursAt(needle, haystack, i);
        return true;
      }
      i := i + 1;
    }
    return false;
  }

  /** init_hook.go `hasPincherHookEntry`. */
  method HasPincherHookEntry(entries: seq<Json>) returns (found: bool)
    ensures found <==> HasOwn(entries)
  {
    for i := 0 to |entries|
      invariant forall k | 0 <= k < i :: !OwnEntry(entries[k])
    {
      if entries[i].Obj? {
        var hooks := ListAt(entries[i].fields, HOOKS);
        for j := 0 to |hooks|
          invariant forall k | 0 <= k < j :: !OwnHook(hooks[k])
        {
          if hooks[j].Obj? {
            var own := Contains(TextAt(hooks[j].fields, COMMAND), OWN_COMMAND);
            if own {
              assert OwnHook(hooks[j]) && OwnEntry(entries[i]);
              return true;
            }
          }
        }
      }
    }
    return false;
  }

  // ---------- The matcher upgrade ----------

  /** An own entry with an exact earlier managed matcher. */
  ghost predicate Outdated(e: Json) { OwnEntry(e) && EarlierMatcher(TextAt(e.fields, MATCHER)) }

  ghost function Upgraded(e: Json): Json {
    if Outdated(e) then Obj(e.fields[MATCHER := Str(MANAGED_MATCHER)]) else e
  }

  ghost predicate IsUpgrade(entries: seq<Json>, entries': seq<Json>) {
    |entries'| == |entries| && forall i | 0 <= i < |entries| :: entries'[i] == Upgraded(entries[i])
  }

  /** init_hook.go `upgradePincherHookMatcher`. */
  method UpgradeMatcher(entries: seq<Json>) returns (entries': seq<Json>, changed: bool)
    ensures IsUpgrade(entries, entries')
    ensures changed <==> exists e :: e in entries && Outdated(e)
  {
    entries', changed := entries, false;
    for i := 0 to |entries|
      invariant |entries'| == |entries|
      invariant forall k | 0 <= k < i :: entries'[k] == Upgraded(entries[k])
      invariant forall k | i <= k < |entries| :: entries'[k] == entries[k]
      invariant changed <==> exists k :: 0 <= k < i && Outdated(entries[k])
    {
      var e := entries[i];
      if e.Obj? {
        var own := HasPincherHookEntry([e]);
        assert HasOwn([e]) <==> OwnEntry(e) by { assert e in [e]; }
        if own && EarlierMatcher(TextAt(e.fields, MATCHER)) {
          entries' := entries'[i := Obj(e.fields[MATCHER := Str(MANAGED_MATCHER)])];
          changed := true;
        }
      }
    }
  }

  /** Upgrading keeps ownership and leaves nothing to upgrade. */
  lemma {:induction false} UpgradeSettles(e: Json)
    ensures OwnEntry(Upgraded(e)) <==> OwnEntry(e)
    ensures !Outdated(Upgraded(e))
  {
    NamesDiffer();
    if Outdated(e) {
      assert ListAt(Upgraded(e).fields, HOOKS) == ListAt(e.fields, HOOKS);
    }
  }

  // ---------- The merge ----------

  datatype Action = Created | Added | Updated | Noop

  function CommandHook(command: string): Json { Obj(map["type" := Str("command"), COMMAND := Str(command)]) }

  function ToolEntry(command: string): Json {
    Obj(map[MATCHER := Str(MANAGED_MATCHER), HOOKS := Arr([CommandHook(command)])])
  }

  function CompactEntry(command: string): Json { Obj(map[HOOKS := Arr([CommandHook(command)])]) }

  ghost function UpgradeAll(entries: seq<Json>): (r: seq<Json>)
    ensures IsUpgrade(entries, r)
  {
    seq(|entries|, i requires 0 <= i < |entries| => Upgraded(entries[i]))
  }

  ghost predicate AnyOutdated(entries: seq<Json>) { exists e :: e in entries && Outdated(e) }

  /** The PreToolUse leg: add an entry if there is none of ours, else bring ours up to date. */
  ghost function ToolLeg(entries: seq<Json>, command: string): seq<Json> {
    if HasOwn(entries) then UpgradeAll(entries) else entries + [ToolEntry(command)]
  }

  /** The PreCompact leg. */
  ghost function CompactLeg(entries: seq<Json>, command: string): seq<Json> {
    if HasOwn(entries) then entries else entries + [CompactEntry(command)]
  }

  ghost predicate Settled(settings: Fields) {
    var hooks := ObjectAt(settings, HOOKS);
    var tool := ListAt(hooks, PRE_TOOL_USE);
    HasOwn(tool) && !AnyOutdated(tool) && HasOwn(ListAt(hooks, PRE_COMPACT))
  }

  /** The settings after a merge. */
  ghost function Merge(settings: Fields, command: string): Fields {
    if Settled(settings) then settings
    else
      var hooks := ObjectAt(settings, HOOKS);
      settings[HOOKS := Obj(hooks[PRE_TOOL_USE := Arr(ToolLeg(ListAt(hooks, PRE_TOOL_USE), command))]
                                 [PRE_COMPACT := Arr(CompactLeg(ListAt(hooks, PRE_COMPACT), command))])]
  }

  /** The label a merge reports. */
  ghost function Label(settings: Fields): Action {
    var hooks := ObjectAt(settings, HOOKS);
    var tool, compact := ListAt(hooks, PRE_TOOL_USE), ListAt(hooks, PRE_COMPACT);
    if Settled(settings) then Noop
    else if !HasOwn(tool) then if tool == [] then Created else Added
    else if !HasOwn(compact) then Added
    else Updated
  }

  class SettingsFile {
    var settings: Fields

    constructor (settings: Fields)
      ensures this.settings == settings
    {
      this.settings := settings;
    }

    /** init_hook.go `mergePincherHook`. */
    method MergePincherHook(command: string) returns (action: Action)
      modifies this
      ensures settings == Merge(old(settings), command)
      ensures action == Label(old(settings))
    {
      var hooks := ObjectAt(settings, HOOKS);
      var changed, legAdded, matcherUpgraded := false, false, false;
      action := Added;
      ghost var hooks0 := hooks;
      NamesDiffer();

      var preToolUse := ListAt(hooks, PRE_TOOL_USE);
      var own := HasPincherHookEntry(preToolUse);
      if !own {
        if |preToolUse| == 0 {
          action := Created;
        }
        hooks := hooks[PRE_TOOL_USE := Arr(preToolUse + [ToolEntry(command)])];
        changed, legAdded := true, true;
      } else {
        var upgraded, any := UpgradeMatcher(preToolUse);
        assert upgraded == UpgradeAll(preToolUse);
        if any {
          hooks := hooks[PRE_TOOL_USE := Arr(upgraded)];
          matcherUpgraded, changed := true, true;
        } else {
          NoneOutdated(preToolUse);
          OwnListPresent(hooks, PRE_TOOL_USE);
        }
      }
      assert hooks == hooks0[PRE_TOOL_USE := Arr(ToolLeg(preToolUse, command))];

      var preCompact := ListAt(hooks, PRE_COMPACT);
      assert preCompact == ListAt(hooks0, PRE_COMPACT);
      own := HasPincherHookEntry(preCompact);
      if !own {
        hooks := hooks[PRE_COMPACT := Arr(preCompact + [CompactEntry(command)])];
        changed, legAdded := true, true;
      } else {
        OwnListPresent(hooks, PRE_COMPACT);
      }
      assert hooks == hooks0[PRE_TOOL_USE := Arr(ToolLeg(preToolUse, command))]
                            [PRE_COMPACT := Arr(CompactLeg(preCompact, command))];

      if !changed {
        return Noop;
      }
      if matcherUpgraded && !legAdded {
        action := Updated;
      }
      settings := settings[HOOKS := Obj(hooks)];
    }
  }

  lemma {:induction false} NoneOutdated(entries: seq<Json>)
    requires !AnyOutdated(entries)
    ensures UpgradeAll(entries) == entries
  {
    assert forall i | 0 <= i < |entries| :: entries[i] in entries;
  }

  /** A list with an own entry is really there, so writing it back changes nothing. */
  lemma {:induction false} OwnListPresent(fields: Fields, key: string)
    requires HasOwn(ListAt(fields, key))
    ensures key in fields && fields[key].Arr? && fields[key := Arr(ListAt(fields, key))] == fields
  {
    assert ListAt(fields, key) != [];
  }

  // ---------- Merging twice ----------

  lemma {:induction false} NewHookIsOwn(command: string)
    ensures OwnHook(CommandHook(command)) <==> Text.Occurs(OWN_COMMAND, command)
    ensures OwnEntry(ToolEntry(command)) <==> Text.Occurs(OWN_COMMAND, command)
    ensures OwnEntry(CompactEntry(command)) <==> Text.Occurs(OWN_COMMAND, command)
    ensures !Outdated(ToolEntry(command))
  {
    NamesDiffer();
    var h := CommandHook(command);
    assert h in [h];
    assert ListAt(ToolEntry(command).fields, HOOKS) == [h] && ListAt(CompactEntry(command).fields, HOOKS) == [h];
    assert TextAt(ToolEntry(command).fields, MATCHER) == MANAGED_MATCHER;
  }

  lemma {:induction false} ToolLegAfter(entries: seq<Json>, command: string)
    ensures HasOwn(ToolLeg(entries, command)) <==> HasOwn(entries) || Text.Occurs(OWN_COMMAND, command)
    ensures !AnyOutdated(ToolLeg(entries, command))
  {
    var leg := ToolLeg(entries, command);
    NewHookIsOwn(command);
    forall i | 0 <= i < |entries|
      ensures entries[i] in entries && OwnEntry(leg[i]) == OwnEntry(entries[i]) && !Outdated(leg[i])
    {
      UpgradeSettles(entries[i]);
      assert Outdated(entries[i]) ==> OwnEntry(entries[i]);
    }
    if HasOwn(entries) {
      var e :| e in entries && OwnEntry(e);
      var i :| 0 <= i < |entries| && entries[i] == e;
      assert leg[i] in leg;
    } else {
      assert leg[|entries|] == ToolEntry(command) && leg[|entries|] in leg;
    }
  }

  lemma {:induction false} CompactLegAfter(entries: seq<Json>, command: string)
    ensures HasOwn(CompactLeg(entries, command)) <==> HasOwn(entries) || Text.Occurs(OWN_COMMAND, command)
  {
    NewHookIsOwn(command);
    if !HasOwn(entries) {
      assert CompactLeg(entries, command)[|entries|] == CompactEntry(command);
    }
  }

  /** A second merge changes nothing if and only if the command names the hook or both legs already had an
      own entry; in particular always for the command the installer builds. */
  lemma {:induction false} SecondMergeIsNoop(settings: Fields, command: string)
    ensures var hooks := ObjectAt(settings, HOOKS);
            Settled(Merge(settings, command)) <==>
            Text.Occurs(OWN_COMMAND, command) ||
            (HasOwn(ListAt(hooks, PRE_TOOL_USE)) && HasOwn(ListAt(hooks, PRE_COMPACT)))
    ensures Settled(Merge(settings, command)) ==>
              Merge(Merge(settings, command), command) == Merge(settings, command) &&
              Label(Merge(settings, command)) == Noop
  {
    NamesDiffer();
    var hooks := ObjectAt(settings, HOOKS);
    var tool, compact := ListAt(hooks, PRE_TOOL_USE), ListAt(hooks, PRE_COMPACT);
    ToolLegAfter(tool, command);
    CompactLegAfter(compact, command);
    if !Settled(settings) {
      var hooks' := ObjectAt(Merge(settings, command), HOOKS);
      assert ListAt(hooks', PRE_TOOL_USE) == ToolLeg(tool, command) &&
             ListAt(hooks', PRE_COMPACT) == CompactLeg(compact, command);
    }
  }

  /** A command that does not name the hook is not recognised as the installer's own, so merging it again adds it
      again: on empty settings the second merge reports another entry. */
  lemma {:induction false} ForeignCommandRepeats()
    ensures var once := Merge(map[], "echo");
            && Label(once) == Added && Merge(once, "echo") != once
            && |ListAt(ObjectAt(Merge(once, "echo"), HOOKS), PRE_TOOL_USE)| == 2
  {
    NamesDiffer();
    var once := Merge(map[], "echo");
    assert !Text.Occurs(OWN_COMMAND, "echo");
    SecondMergeIsNoop(map[], "echo");
    ToolLegAfter([], "echo");
    assert ListAt(ObjectAt(once, HOOKS), PRE_TOOL_USE) == ToolLeg([], "echo") == [ToolEntry("echo")];
    var twice := Merge(once, "echo");
    assert ListAt(ObjectAt(twice, HOOKS), PRE_TOOL_USE) == [ToolEntry("echo")] + [ToolEntry("echo")];
  }

  /** The command line the installer bakes in: init_hook.go `hookCheckCommand`, dir already quoted. */
  function HookCheckCommand(dir: string): string {
    if dir == "" then OWN_COMMAND else OWN_COMMAND + " --data-dir " + dir
  }

  /** Running the installer again is a no-op, whatever the settings and data directories were. */
  lemma {:induction false} InstallTwice(settings: Fields, dir: string, dir': string)
    ensures Label(Merge(settings, HookCheckCommand(dir))) == Noop
    ensures Merge(Merge(settings, HookCheckCommand(dir)), HookCheckCommand(dir')) ==
            Merge(settings, HookCheckCommand(dir))
  {
    assert Text.OccursAt(OWN_COMMAND, HookCheckCommand(dir), 0);
    SecondMergeIsNoop(settings, HookCheckCommand(dir));
  }

  // ---------- What a merge writes, spelled out ----------

  /** Into empty settings: one entry for the tools, with the matcher, and one for compaction, without; each runs the
      command. */
  lemma {:induction false} FreshInstall(command: string)
    ensures var hook := Obj(map["type" := Str("command"), "command" := Str(command)]);
            Merge(map[], command) ==
            map["hooks" := Obj(map["PreToolUse" := Arr([Obj(map["matcher" := Str("Read|Grep|Glob|Task"),
                                                                "hooks" := Arr([hook])])]),
                                   "PreCompact" := Arr([Obj(map["hooks" := Arr([hook])])])])]
    ensures Label(map[]) == Created
  {
    NamesDiffer();
    assert [] + [ToolEntry(command)] == [ToolEntry(command)] && [] + [CompactEntry(command)] == [CompactEntry(command)];
  }

  /** An entry is the installer's own if one of its hooks runs a command that contains `pincher hook-check`. */
  lemma {:induction false} OwnEntryIff(e: Json)
    ensures OwnEntry(e) <==>
            && e.Obj? && "hooks" in e.fields && e.fields["hooks"].Arr?
            && exists h :: h in e.fields["hooks"].items && h.Obj? && "command" in h.fields &&
                           h.fields["command"].Str? && Text.Occurs("pincher hook-check", h.fields["command"].s)
  {
    EmptyIsForeign();
    if OwnEntry(e) {
      var h :| h in ListAt(e.fields, HOOKS) && OwnHook(h);
      assert h.Obj? && TextAt(h.fields, COMMAND) != "";
    }
    forall h: Json | h.Obj? && "command" in h.fields && h.fields["command"].Str? &&
               Text.Occurs("pincher hook-check", h.fields["command"].s)
      ensures OwnHook(h)
    {
    }
  }

  lemma {:induction false} EmptyIsForeign()
    ensures !Text.Occurs(OWN_COMMAND, "")
  {
  }

  /** An own entry with one of the two earlier matchers gets the current one and keeps everything else; any other entry
      is left alone. */
  lemma {:induction false} UpgradedIs(e: Json)
    ensures var earlier := e.Obj? && "matcher" in e.fields &&
                           (e.fields["matcher"] == Str("Read|Grep") || e.fields["matcher"] == Str("Read|Grep|Glob"));
            Upgraded(e) ==
            if OwnEntry(e) && earlier then Obj(e.fields["matcher" := Str("Read|Grep|Glob|Task")]) else e
  {
  }

  /** The reported action: nothing to do, a first entry, another entry, or only a new matcher. */
  lemma {:induction false} LabelIff(settings: Fields)
    ensures var hooks := ObjectAt(settings, "hooks");
            var tool, compact := ListAt(hooks, "PreToolUse"), ListAt(hooks, "PreCompact");
            var outdated := exists e :: e in tool && Upgraded(e) != e;
            && (Label(settings) == Created <==> tool == [])
            && (Label(settings) == Added <==> tool != [] && !(HasOwn(tool) && HasOwn(compact)))
            && (Label(settings) == Updated <==> HasOwn(tool) && HasOwn(compact) && outdated)
            && (Label(settings) == Noop <==> HasOwn(tool) && HasOwn(compact) && !outdated)
  {
    var tool := ListAt(ObjectAt(settings, HOOKS), PRE_TOOL_USE);
    assert HasOwn(tool) ==> tool != [];
    forall e ensures Upgraded(e) != e <==> Outdated(e) {
      ChangedIsOutdated(e);
    }
  }

  lemma {:induction false} ChangedIsOutdated(e: Json)
    ensures Upgraded(e) != e <==> Outdated(e)
  {
    NamesDiffer();
    if Outdated(e) {
      assert TextAt(Upgraded(e).fields, MATCHER) == MANAGED_MATCHER;
    }
  }

  // ---------- What a merge keeps ----------

  /** The PreToolUse list is kept if it is unchanged, or own outdated entries got a new matcher and nothing else, or
      exactly the new entry was added at the end. */
  ghost predicate KeptToolList(v: Json, v': Json, command: string) {
    v' == v || (v.Arr? && v'.Arr? &&
                (IsUpgrade(v.items, v'.items) || v'.items == v.items + [ToolEntry(command)]))
  }

  /** The PreCompact list is kept if it is unchanged or exactly the new entry was added at the end. */
  ghost predicate KeptCompactList(v: Json, v': Json, command: string) {
    v' == v || (v.Arr? && v'.Arr? && v'.items == v.items + [CompactEntry(command)])
  }

  ghost predicate KeptEvent(event: string, v: Json, v': Json, command: string) {
    if event == PRE_TOOL_USE then KeptToolList(v, v', command)
    else if event == PRE_COMPACT then KeptCompactList(v, v', command)
    else v' == v
  }

  ghost predicate NewEvent(event: string, v': Json, command: string) {
    || (event == PRE_TOOL_USE && v' == Arr([ToolEntry(command)]))
    || (event == PRE_COMPACT && v' == Arr([CompactEntry(command)]))
  }

  /** The two lists are kept, every other event is as it was, and what is new is the list of just the new entry. */
  ghost predicate KeptHooks(v: Json, v': Json, command: string) {
    v' == v || (v.Obj? && v'.Obj? &&
                (forall k | k in v.fields :: k in v'.fields && KeptEvent(k, v.fields[k], v'.fields[k], command)) &&
                forall k | k in v'.fields && k !in v.fields :: NewEvent(k, v'.fields[k], command))
  }

  /** Nothing that was in the settings is gone and no key but the hooks is new: other keys are as they were,
      and the hooks are kept. */
  ghost predicate Kept(settings: Fields, settings': Fields, command: string) {
    && (forall k | k in settings && k != HOOKS :: k in settings' && settings'[k] == settings[k])
    && (forall k | k in settings' && k != HOOKS :: k in settings)
    && (HOOKS in settings ==> HOOKS in settings' && KeptHooks(settings[HOOKS], settings'[HOOKS], command))
    && (HOOKS in settings' && HOOKS !in settings ==> KeptHooks(Obj(map[]), settings'[HOOKS], command))
  }

  ghost predicate ListIfPresent(fields: Fields, key: string) { key in fields ==> fields[key].Arr? }

  /** The places a merge writes to hold what it expects there. */
  ghost predicate WellTyped(settings: Fields) {
    HOOKS in settings ==>
      && settings[HOOKS].Obj?
      && ListIfPresent(settings[HOOKS].fields, PRE_TOOL_USE)
      && ListIfPresent(settings[HOOKS].fields, PRE_COMPACT)
  }

  /** A merge keeps every key and entry if and only if the hook lists are well typed. */
  lemma {:induction false} MergeKeepsIff(settings: Fields, command: string)
    ensures Kept(settings, Merge(settings, command), command) <==> WellTyped(settings)
  {
    if Settled(settings) {
      SettledIsTyped(settings);
    } else if WellTyped(settings) {
      TypedIsKept(settings, command);
    } else {
      UntypedIsNotKept(settings, command);
    }
  }

  lemma {:induction false} TypedIsKept(settings: Fields, command: string)
    requires !Settled(settings) && WellTyped(settings)
    ensures Kept(settings, Merge(settings, command), command)
  {
    NamesDiffer();
    var hooks := ObjectAt(settings, HOOKS);
    LegsKeep(hooks, command);
    assert HOOKS in settings ==> settings[HOOKS] == Obj(hooks);
  }

  /** Both legs keep what is there, and start a list of just the new entry where there is none. */
  lemma {:induction false} LegsKeep(hooks: Fields, command: string)
    requires ListIfPresent(hooks, PRE_TOOL_USE) && ListIfPresent(hooks, PRE_COMPACT)
    ensures KeptHooks(Obj(hooks), Obj(hooks[PRE_TOOL_USE := Arr(ToolLeg(ListAt(hooks, PRE_TOOL_USE), command))]
                                          [PRE_COMPACT := Arr(CompactLeg(ListAt(hooks, PRE_COMPACT), command))]),
                      command)
  {
    NamesDiffer();
    var tool, compact := ListAt(hooks, PRE_TOOL_USE), ListAt(hooks, PRE_COMPACT);
    assert [] + [ToolEntry(command)] == [ToolEntry(command)] && [] + [CompactEntry(command)] == [CompactEntry(command)];
    assert KeptToolList(Arr(tool), Arr(ToolLeg(tool, command)), command);
    assert KeptCompactList(Arr(compact), Arr(CompactLeg(compact, command)), command);
  }

  lemma {:induction false} UntypedIsNotKept(settings: Fields, command: string)
    requires !Settled(settings) && !WellTyped(settings)
    ensures !Kept(settings, Merge(settings, command), command)
  {
    NamesDiffer();
  }

  lemma {:induction false} SettledIsTyped(settings: Fields)
    requires Settled(settings)
    ensures WellTyped(settings)
  {
    var hooks := ObjectAt(settings, HOOKS);
    OwnListPresent(hooks, PRE_TOOL_USE);
    OwnListPresent(hooks, PRE_COMPACT);
  }

  /** Hooks that are no object are lost: here a text gives way to the two new lists. */
  lemma {:induction false} UntypedHooksLost(command: string)
    ensures var settings: Fields := map[HOOKS := Str("x")];
            && Merge(settings, command)[HOOKS] == Obj(map[PRE_TOOL_USE := Arr([ToolEntry(command)]),
                                                          PRE_COMPACT := Arr([CompactEntry(command)])])
            && !Kept(settings, Merge(settings, command), command)
  {
    var settings: Fields := map[HOOKS := Str("x")];
    NamesDiffer();
    assert [] + [ToolEntry(command)] == [ToolEntry(command)] && [] + [CompactEntry(command)] == [CompactEntry(command)];
    MergeKeepsIff(settings, command);
  }
}
