/** Scope tracking in the regex extractor: the line loop of `regexExtractor.extract` in
    internal/ast/extractor.go. Regular expressions are given as a classification of each line. */
module FunctionScopes {
  import opened Collections
  import ClassScopes

  // ---------- The stack of function scopes ----------

  /** A line as the scope stack sees it: the function scope it opens, if any, and the line on which a
      block opened here ends. Line numbers are one more than indices. */
  datatype Mark = Mark(opens: Option<string>, end: int)

  /** Line i opens a scope that still covers line n. */
  ghost predicate Encloses(marks: seq<Mark>, i: int, n: int) {
    0 <= i < n < |marks| && marks[i].opens.Some? && n + 1 <= marks[i].end
  }

  /** Two scopes of which the later starts inside the earlier and ends after it, within the file. */
  ghost predicate Cross(marks: seq<Mark>, i: int, j: int) {
    && 0 <= i < j < |marks| && marks[i].opens.Some? && marks[j].opens.Some?
    && j + 1 <= marks[i].end < marks[j].end && marks[i].end < |marks|
  }

  /** A stack holds scope-opening lines before n, outermost first. */
  ghost predicate Scopes(marks: seq<Mark>, stack: seq<nat>, n: nat) {
    && n <= |marks|
    && (forall a | 0 <= a < |stack| :: stack[a] < n && marks[stack[a]].opens.Some?)
    && (forall a, b | 0 <= a < b < |stack| :: stack[a] < stack[b])
  }

  /** Drop scopes from the top while they end before line number num. */
  function Popped(marks: seq<Mark>, stack: seq<nat>, num: int): (r: seq<nat>)
    requires Scopes(marks, stack, |marks|)
    ensures r <= stack
    ensures r != [] ==> marks[r[|r| - 1]].end >= num
    ensures forall a | |r| <= a < |stack| :: marks[stack[a]].end < num
  {
    if stack != [] && num > marks[stack[|stack| - 1]].end then Popped(marks, stack[..|stack| - 1], num) else stack
  }

  /** The scopes on the stack on line n, after the pop loop. */
  function StackAt(marks: seq<Mark>, n: nat): (r: seq<nat>)
    requires n < |marks|
    ensures Scopes(marks, r, n)
    decreases n, 1
  {
    Popped(marks, StackBefore(marks, n), n + 1)
  }

  function StackBefore(marks: seq<Mark>, n: nat): (r: seq<nat>)
    requires n <= |marks|
    ensures Scopes(marks, r, n)
    decreases n, 0
  {
    if n == 0 then [] else StackAt(marks, n - 1) + if marks[n - 1].opens.Some? then [n - 1] else []
  }

  lemma {:induction false} BeforeMembers(marks: seq<Mark>, n: nat, i: nat)
    requires 0 < n <= |marks|
    ensures i in StackBefore(marks, n) <==> i in StackAt(marks, n - 1) || (i == n - 1 && marks[i].opens.Some?)
  {
  }

  /** A scope that is still open is not popped, and neither is anything under it. */
  lemma {:induction false} PopKeeps(marks: seq<Mark>, stack: seq<nat>, num: int, i: nat, j: nat)
    requires Scopes(marks, stack, |marks|) && i in stack && j in stack && i <= j && marks[j].end >= num
    ensures i in Popped(marks, stack, num)
  {
    var r := Popped(marks, stack, num);
    var a :| 0 <= a < |stack| && stack[a] == i;
    var b :| 0 <= b < |stack| && stack[b] == j;
    assert a <= b < |r|;
    assert r[a] == i;
  }

  /** A scope opened before line n and not yet past its end is on the stack when line n is reached. */
  lemma {:induction false} OpenReaches(marks: seq<Mark>, i: nat, n: nat)
    requires i < n <= |marks| && marks[i].opens.Some? && (i == n - 1 || n <= marks[i].end)
    ensures i in StackBefore(marks, n)
    decreases n
  {
    if i < n - 1 {
      OpenReaches(marks, i, n - 1);
      PopKeeps(marks, StackBefore(marks, n - 1), n, i, i);
    }
    BeforeMembers(marks, n, i);
  }

  lemma {:induction false} OpenStays(marks: seq<Mark>, i: nat, n: nat)
    requires Encloses(marks, i, n)
    ensures i in StackAt(marks, n)
  {
    OpenReaches(marks, i, n);
    PopKeeps(marks, StackBefore(marks, n), n + 1, i, i);
  }

  /** The scope opened on line i, or a later one, covers line n. */
  ghost predicate Covered(marks: seq<Mark>, i: int, n: int) { exists j :: i <= j && Encloses(marks, j, n) }

  lemma {:induction false} TopCovers(marks: seq<Mark>, n: nat, a: nat)
    requires n < |marks| && a < |StackAt(marks, n)|
    ensures Covered(marks, StackAt(marks, n)[a], n)
  {
    var stack := StackAt(marks, n);
    assert Encloses(marks, stack[|stack| - 1], n);
  }

  /** A scope keeps its place on the stack. */
  lemma {:induction false} OnStackBefore(marks: seq<Mark>, n: nat, a: nat)
    requires n < |marks| && a < |StackAt(marks, n)| && StackAt(marks, n)[a] < n - 1
    ensures a < |StackAt(marks, n - 1)| && StackAt(marks, n - 1)[a] == StackAt(marks, n)[a]
  {
    assert StackBefore(marks, n)[a] == StackAt(marks, n)[a];
  }

  /** A scope on the stack has been covered, by itself or a later one, ever since it was opened. */
  lemma {:induction false} CoveredSince(marks: seq<Mark>, n: nat, a: nat, m: nat)
    requires n < |marks| && a < |StackAt(marks, n)| && StackAt(marks, n)[a] < m <= n
    ensures Covered(marks, StackAt(marks, n)[a], m)
    decreases n
  {
    if m == n {
      TopCovers(marks, n, a);
    } else {
      OnStackBefore(marks, n, a);
      CoveredSince(marks, n - 1, a, m);
    }
  }

  /** A scope covered ever since, and crossed by no other, is still open. */
  lemma {:induction false} UncrossedIsOpen(marks: seq<Mark>, i: nat, n: nat)
    requires i < n < |marks| && marks[i].opens.Some?
    requires forall m | i < m <= n :: Covered(marks, i, m)
    requires forall j :: !Cross(marks, i, j)
    ensures Encloses(marks, i, n)
    decreases n
  {
    if i < n - 1 {
      UncrossedIsOpen(marks, i, n - 1);
    }
    assert Covered(marks, i, n);
    var j :| i <= j && Encloses(marks, j, n);
    assert !Cross(marks, i, j);
  }

  /** Without crossing scopes, everything on the stack is still open. */
  lemma {:induction false} StackIsOpen(marks: seq<Mark>, n: nat, i: nat)
    requires n < |marks| && i in StackAt(marks, n) && forall j :: !Cross(marks, i, j)
    ensures Encloses(marks, i, n)
  {
    var a :| 0 <= a < |StackAt(marks, n)| && StackAt(marks, n)[a] == i;
    forall m | i < m <= n ensures Covered(marks, i, m) {
      CoveredSince(marks, n, a, m);
    }
    UncrossedIsOpen(marks, i, n);
  }

  /** After the pop loop the stack holds exactly the enclosing functions on every line, if and only if no
      two function scopes cross. */
  lemma {:induction false} StackIsExact(marks: seq<Mark>)
    ensures (forall n: nat, i | n < |marks| :: i in StackAt(marks, n) <==> Encloses(marks, i, n))
       <==> (forall i, j :: !Cross(marks, i, j))
  {
    if forall i, j :: !Cross(marks, i, j) {
      forall n: nat, i | n < |marks| ensures i in StackAt(marks, n) <==> Encloses(marks, i, n) {
        if i in StackAt(marks, n) { StackIsOpen(marks, n, i); }
        if Encloses(marks, i, n) { OpenStays(marks, i, n); }
      }
    }
    forall i, j | Cross(marks, i, j)
      ensures exists n: nat, i :: n < |marks| && i in StackAt(marks, n) && !Encloses(marks, i, n)
    {
      var n: nat := marks[i].end;
      CrossedScopeLingers(marks, i, j);
      assert i in StackAt(marks, n) && !Encloses(marks, i, n);
    }
  }

  lemma {:induction false} CrossedScopeLingers(marks: seq<Mark>, i: nat, j: nat)
    requires Cross(marks, i, j)
    ensures i in StackAt(marks, marks[i].end)
  {
    var n := marks[i].end;
    OpenReaches(marks, i, n);
    OpenReaches(marks, j, n);
    PopKeeps(marks, StackBefore(marks, n), n + 1, i, j);
  }

  /** Whether or not scopes cross, the top of the stack is the innermost function around the line: it
      encloses the line, no later function does, and the stack is empty only when none does. */
  lemma {:induction false} TopIsInnermost(marks: seq<Mark>, n: nat)
    requires n < |marks|
    ensures var stack := StackAt(marks, n);
            if stack == [] then forall i :: !Encloses(marks, i, n)
            else Encloses(marks, stack[|stack| - 1], n) && forall i | Encloses(marks, i, n) :: i <= stack[|stack| - 1]
  {
    forall i | Encloses(marks, i, n) ensures i in StackAt(marks, n) {
      OpenStays(marks, i, n);
    }
  }

  /** A function with no other function between it and line n is on the stack there if and only if its block, which
      ends on line number `end`, has not ended before. */
  lemma {:induction false} LastFunctionOpen(marks: seq<Mark>, i: nat, n: nat)
    requires i < n < |marks| && marks[i].opens.Some? && forall k | i < k < n :: marks[k].opens.None?
    ensures i in StackAt(marks, n) <==> n + 1 <= marks[i].end
  {
    var stack := StackAt(marks, n);
    TopIsInnermost(marks, n);
    if i in stack {
      var a :| 0 <= a < |stack| && stack[a] == i;
      var top := stack[|stack| - 1];
      assert stack[a] <= top && marks[top].opens.Some?;
      assert top == i;
    }
    if n + 1 <= marks[i].end {
      OpenStays(marks, i, n);
    }
  }

  // ---------- Names inside the stack ----------

  /** Where a file's names live: its module and the separator. */
  datatype Naming = Naming(mod: string, sep: string)

  /** The qualified name of a declaration under the given scopes: the module, the functions outermost
      first, the declaration. */
  function NameIn(naming: Naming, marks: seq<Mark>, stack: seq<nat>, name: string): string
    requires Scopes(marks, stack, |marks|)
    decreases |stack|
  {
    (if stack == [] then naming.mod else Innermost(naming, marks, stack)) + naming.sep + name
  }

  /** The qualified name of the innermost of some scopes. */
  function Innermost(naming: Naming, marks: seq<Mark>, stack: seq<nat>): string
    requires Scopes(marks, stack, |marks|) && stack != []
    decreases |stack|, 0
  {
    NameIn(naming, marks, stack[..|stack| - 1], marks[stack[|stack| - 1]].opens.value)
  }

  datatype FuncScope = FuncScope(qn: string, endLine: int)

  /** The frames the loop keeps for some scopes. */
  function Frames(naming: Naming, marks: seq<Mark>, stack: seq<nat>): (r: seq<FuncScope>)
    requires Scopes(marks, stack, |marks|)
    ensures |r| == |stack|
  {
    if stack == [] then []
    else
      Frames(naming, marks, stack[..|stack| - 1])
      + [FuncScope(Innermost(naming, marks, stack), marks[stack[|stack| - 1]].end)]
  }

  /** The pop loop at the top of each iteration. */
  method Pop(ghost naming: Naming, ghost marks: seq<Mark>, ghost stack: seq<nat>, funcStack: seq<FuncScope>,
             lineNum: int)
    returns (r: seq<FuncScope>)
    requires Scopes(marks, stack, |marks|) && funcStack == Frames(naming, marks, stack)
    ensures r == Frames(naming, marks, Popped(marks, stack, lineNum))
  {
    r := funcStack;
    ghost var s := stack;
    while |r| > 0 && lineNum > r[|r| - 1].endLine
      invariant Scopes(marks, s, |marks|) && r == Frames(naming, marks, s)
      invariant Popped(marks, s, lineNum) == Popped(marks, stack, lineNum)
      decreases |r|
    {
      r := r[..|r| - 1];
      s := s[..|s| - 1];
    }
  }

  // ---------- The class scope ----------

  /** What the patterns say about a line: the captured name of each that matches with a non-empty name, the text a
      class names as its parent, the trait of an impl block, and the line on which a block opened here ends. */
  datatype Line = Line(class_: Option<Name>, base: string, scope: Option<Name>, trait_: string, ns: Option<Name>,
                       interface_: Option<Name>, enum: Option<Name>, func: Option<Name>,
                       method_: Option<Name>, variable: Option<Name>, end: int)

  type Name = s: string | s != "" witness "f"

  /** What does not change along a file. */
  datatype File = File(lines: seq<Line>, naming: Naming, hasMethodRE: bool)

  datatype Kind = Class | Module | Interface | Enum | Function | Method | Variable
  datatype Symbol = Symbol(name: string, qn: string, kind: Kind, start: int, end: int, parent: string)

  datatype ClassScope = ClassScope(name: string, qn: string, end: int, funcBody: bool)

  const NO_CLASS := ClassScope("", "", 0, false)

  /** A line as the class slot sees it. */
  function BlockOf(line: Line, num: int): ClassScopes.Block {
    ClassScopes.Block(
      if line.class_.Some? && num <= line.end then ClassScopes.ByClass
      else if line.interface_.Some? || line.enum.Some? then ClassScopes.ByOther
      else ClassScopes.NoDecl,
      if line.scope.Some? then ClassScopes.Impl else if line.ns.Some? then ClassScopes.Namespace else ClassScopes.NoBox,
      line.class_.Some? && num > line.end,
      line.end)
  }

  function BlocksOf(f: File): (blocks: seq<ClassScopes.Block>)
    ensures |blocks| == |f.lines|
    ensures forall n | 0 <= n < |blocks| :: blocks[n] == BlockOf(f.lines[n], n + 1)
  {
    seq(|f.lines|, n requires 0 <= n < |f.lines| => BlockOf(f.lines[n], n + 1))
  }

  /** The name of the block a line opens, and its segment in qualified names. */
  function BlockName(line: Line, num: int, sep: string): (string, string) {
    if line.enum.Some? then (line.enum.value, line.enum.value)
    else if line.interface_.Some? then (line.interface_.value, line.interface_.value)
    else if line.class_.Some? && num <= line.end then (line.class_.value, line.class_.value)
    else if line.scope.Some? then
      (line.scope.value, line.scope.value + if line.trait_ != "" then sep + line.trait_ else "")
    else if line.ns.Some? then (line.ns.value, line.ns.value)
    else ("", "")
  }

  /** The class scope on line n: that of the line whose block holds the slot. */
  function SlotAt(f: File, n: nat): ClassScope
    requires n < |f.lines|
  {
    var blocks := BlocksOf(f);
    match ClassScopes.HolderAt(blocks, n)
    case None => NO_CLASS
    case Some(j) =>
      var (name, qn) := BlockName(f.lines[j], j + 1, f.naming.sep);
      ClassScope(name, qn, f.lines[j].end, ClassScopes.InNamespace(blocks, n))
  }

  /** The slot of a line, by the line and the slot of the line before. A type declaration takes it: an enum before an
      interface before a class. Otherwise a block that goes on keeps it, and where none does an impl block takes it, or
      a namespace. The flag goes up with a namespace that takes the slot, and stays for types that find it up. */
  lemma {:induction false} SlotOnLine(f: File, n: nat)
    requires n < |f.lines|
    ensures var line, slot := f.lines[n], SlotAt(f, n);
            var before := if n == 0 then NO_CLASS else SlotAt(f, n - 1);
            var isClass := line.class_.Some? && n + 1 <= line.end;
            var goesOn := before.name != "" && n + 1 <= before.end && (line.class_.Some? ==> isClass);
            var flag := if isClass || goesOn then before.funcBody else line.scope.None? && line.ns.Some?;
            && (ClassScopes.Cleared(BlocksOf(f), n) <==> !isClass && !goesOn)
            && slot ==
               if line.enum.Some? then ClassScope(line.enum.value, line.enum.value, line.end, flag)
               else if line.interface_.Some? then
                 ClassScope(line.interface_.value, line.interface_.value, line.end, flag)
               else if isClass then ClassScope(line.class_.value, line.class_.value, line.end, flag)
               else if goesOn then before
               else if line.scope.Some? then
                 ClassScope(line.scope.value,
                            line.scope.value + (if line.trait_ == "" then "" else f.naming.sep + line.trait_),
                            line.end, false)
               else if line.ns.Some? then ClassScope(line.ns.value, line.ns.value, line.end, true)
               else NO_CLASS
  {
    var blocks := BlocksOf(f);
    assert blocks[n] == BlockOf(f.lines[n], n + 1);
    if n > 0 {
      BeforeHolds(f, n);
    }
  }

  lemma {:induction false} BeforeHolds(f: File, n: nat)
    requires 0 < n < |f.lines|
    ensures var held, before := ClassScopes.HeldBefore(BlocksOf(f), n), SlotAt(f, n - 1);
            && (held.Some? <==> before.name != "")
            && (held.Some? ==> before.end == BlocksOf(f)[held.value].end == f.lines[held.value].end)
            && before.funcBody == ClassScopes.InNamespace(BlocksOf(f), n - 1)
  {
    var held := ClassScopes.HolderAt(BlocksOf(f), n - 1);
    if held.Some? {
      assert BlocksOf(f)[held.value] == BlockOf(f.lines[held.value], held.value + 1);
    } else {
      ClassScopes.EmptyIsNoNamespace(BlocksOf(f), n - 1);
    }
  }

  /** The loop's variables hold the class scope of line n. An empty slot keeps the end of some block long over. */
  ghost predicate Holds(f: File, n: nat, c: ClassScope)
    requires n < |f.lines|
  {
    var slot := SlotAt(f, n);
    && c.name == slot.name && c.qn == slot.qn && c.funcBody == slot.funcBody
    && if slot.name == "" then c.end <= n else c.end == slot.end
  }

  ghost predicate HoldsBefore(f: File, n: nat, c: ClassScope)
    requires n <= |f.lines|
  {
    if n == 0 then c == NO_CLASS else Holds(f, n - 1, c)
  }

  function Container(f: File, n: nat, name: string, kind: Kind, parent: string): Symbol
    requires n < |f.lines|
  {
    Symbol(name, f.naming.mod + f.naming.sep + name, kind, n + 1, f.lines[n].end, parent)
  }

  function ClassesAt(f: File, n: nat): seq<Symbol>
    requires n < |f.lines|
  {
    var line := f.lines[n];
    if line.class_.Some? then [Container(f, n, line.class_.value, Class, line.base)] else []
  }

  /** A namespace gets a symbol only where it gets the slot. */
  function ModulesAt(f: File, n: nat): seq<Symbol>
    requires n < |f.lines|
  {
    var line := f.lines[n];
    if line.ns.Some? && line.scope.None? && ClassScopes.Cleared(BlocksOf(f), n)
    then [Container(f, n, line.ns.value, Module, "")] else []
  }

  function TypesAt(f: File, n: nat): seq<Symbol>
    requires n < |f.lines|
  {
    var line := f.lines[n];
    (if line.interface_.Some? then [Container(f, n, line.interface_.value, Interface, "")] else []) +
    (if line.enum.Some? then [Container(f, n, line.enum.value, Enum, "")] else [])
  }

  /** The types and namespaces line n declares. */
  function ContainersAt(f: File, n: nat): seq<Symbol>
    requires n < |f.lines|
  {
    ClassesAt(f, n) + ModulesAt(f, n) + TypesAt(f, n)
  }

  /** What line n finds in the slot before the impl and namespace patterns. */
  ghost predicate Emptied(f: File, n: nat, c: ClassScope)
    requires n < |f.lines|
  {
    var line, blocks := f.lines[n], BlocksOf(f);
    if ClassScopes.Cleared(blocks, n) then c.name == "" && c.qn == "" && !c.funcBody && c.end <= n
    else if line.class_.Some? then
      c == ClassScope(line.class_.value, line.class_.value, line.end, n > 0 && ClassScopes.InNamespace(blocks, n - 1))
    else n > 0 && c == SlotAt(f, n - 1) && c.name != ""
  }

  /** The class pattern, and clearing a block that has ended. */
  method MatchClass(f: File, n: nat, c: ClassScope) returns (c': ClassScope, emitted: seq<Symbol>)
    requires n < |f.lines| && HoldsBefore(f, n, c)
    ensures Emptied(f, n, c')
    ensures emitted == ClassesAt(f, n)
  {
    var line, lineNum := f.lines[n], n + 1;
    c', emitted := c, [];
    if line.class_.Some? {
      c' := c'.(name := line.class_.value, qn := line.class_.value, end := line.end);
      emitted := [Container(f, n, line.class_.value, Class, line.base)];
    }
    SlotBefore(f, n, c);
    if lineNum > c'.end {
      c' := c'.(name := "", qn := "", funcBody := false);
    }
  }

  /** The slot as line n finds it. */
  lemma {:induction false} SlotBefore(f: File, n: nat, c: ClassScope)
    requires n < |f.lines| && HoldsBefore(f, n, c)
    ensures var blocks := BlocksOf(f);
            var held := ClassScopes.HeldBefore(blocks, n);
            && (held.None? ==>
                  c.name == "" && c.end <= n && !c.funcBody && (n > 0 ==> !ClassScopes.InNamespace(blocks, n - 1)))
            && (held.Some? ==> n > 0 && c == SlotAt(f, n - 1) && c.name != "" && c.end == blocks[held.value].end)
            && c.funcBody == (n > 0 && ClassScopes.InNamespace(blocks, n - 1))
  {
    var blocks := BlocksOf(f);
    if n > 0 {
      var held := ClassScopes.HolderAt(blocks, n - 1);
      if held.None? {
        ClassScopes.EmptyIsNoNamespace(blocks, n - 1);
      }
    }
  }

  /** What the impl and namespace patterns leave: they only open a block in an empty slot. */
  ghost predicate Boxed(f: File, n: nat, c: ClassScope)
    requires n < |f.lines|
  {
    var line := f.lines[n];
    if !ClassScopes.Cleared(BlocksOf(f), n) || (line.scope.None? && line.ns.None?) then Emptied(f, n, c)
    else
      var name := if line.scope.Some? then line.scope.value else line.ns.value;
      var qn := if line.scope.Some? && line.trait_ != "" then name + f.naming.sep + line.trait_ else name;
      c == ClassScope(name, qn, line.end, line.scope.None?)
  }

  method MatchBoxes(f: File, n: nat, c: ClassScope) returns (c': ClassScope, emitted: seq<Symbol>)
    requires n < |f.lines| && Emptied(f, n, c)
    ensures Boxed(f, n, c')
    ensures emitted == ModulesAt(f, n)
  {
    var line := f.lines[n];
    c', emitted := c, [];
    if line.scope.Some? && c'.name == "" {
      c' := c'.(name := line.scope.value, end := line.end, qn := line.scope.value);
      if line.trait_ != "" {
        c' := c'.(qn := line.scope.value + f.naming.sep + line.trait_);
      }
    }
    if line.ns.Some? && c'.name == "" {
      c' := ClassScope(line.ns.value, line.ns.value, line.end, true);
      emitted := [Container(f, n, line.ns.value, Module, "")];
    }
  }

  lemma {:induction false} SlotFollows(f: File, n: nat, c: ClassScope)
    requires n < |f.lines| && Boxed(f, n, c)
    ensures var line := f.lines[n];
            var name := if line.enum.Some? then line.enum.value
                        else if line.interface_.Some? then line.interface_.value else "";
            Holds(f, n, if name == "" then c else c.(name := name, qn := name, end := line.end))
  {
    var line, blocks := f.lines[n], BlocksOf(f);
    assert blocks[n] == BlockOf(line, n + 1);
    assert ClassScopes.HolderAt(blocks, n) ==
           if blocks[n].Typed() then Some(n)
           else if !ClassScopes.Cleared(blocks, n) then ClassScopes.HeldBefore(blocks, n)
           else if !blocks[n].box.NoBox? then Some(n) else None;
    assert ClassScopes.InNamespace(blocks, n) ==
           if ClassScopes.Cleared(blocks, n) then blocks[n].box.Namespace?
           else n > 0 && ClassScopes.InNamespace(blocks, n - 1);
  }

  method MatchTypes(f: File, n: nat, c: ClassScope) returns (c': ClassScope, emitted: seq<Symbol>)
    requires n < |f.lines| && Boxed(f, n, c)
    ensures Holds(f, n, c')
    ensures emitted == TypesAt(f, n)
  {
    var line := f.lines[n];
    SlotFollows(f, n, c);
    c', emitted := c, [];
    if line.interface_.Some? {
      c' := c'.(name := line.interface_.value, qn := line.interface_.value, end := line.end);
      emitted := [Container(f, n, line.interface_.value, Interface, "")];
    }
    if line.enum.Some? {
      c' := c'.(name := line.enum.value, qn := line.enum.value, end := line.end);
      emitted := emitted + [Container(f, n, line.enum.value, Enum, "")];
    }
  }

  /** The container patterns of one line, in the order the source tries them. */
  method MatchContainers(f: File, n: nat, c: ClassScope) returns (c': ClassScope, emitted: seq<Symbol>)
    requires n < |f.lines| && HoldsBefore(f, n, c)
    ensures Holds(f, n, c')
    ensures emitted == ContainersAt(f, n)
  {
    var classes, modules, types;
    c', classes := MatchClass(f, n, c);
    c', modules := MatchBoxes(f, n, c');
    c', types := MatchTypes(f, n, c');
    emitted := classes + modules + types;
  }

  // ---------- The line loop ----------

  /** The function matched on a line: by methodRE inside a class-like scope, by funcRE elsewhere, and not
      at all on a line that declares a class. */
  function FuncMatch(line: Line, c: ClassScope, hasMethodRE: bool): Option<Name> {
    if line.class_.Some? then None
    else if c.name != "" && hasMethodRE && !c.funcBody then line.method_
    else line.func
  }

  /** A function outside every class scope opens a function scope. */
  function MarkOf(line: Line, c: ClassScope, hasMethodRE: bool): Mark {
    var m := FuncMatch(line, c, hasMethodRE);
    Mark(if m.Some? && c.name == "" then Some(m.value) else None, line.end)
  }

  function MarksOf(f: File): (marks: seq<Mark>)
    ensures |marks| == |f.lines|
  {
    seq(|f.lines|, n requires 0 <= n < |f.lines| => MarkOf(f.lines[n], SlotAt(f, n), f.hasMethodRE))
  }

  /** The function or variable a line declares, given its class scope and the innermost open function. */
  function Declared(f: File, line: Line, num: int, c: ClassScope, top: Option<string>): seq<Symbol> {
    var m := FuncMatch(line, c, f.hasMethodRE);
    var scope := if top.None? then f.naming.mod else top.value;
    var parent := if top.None? then "" else top.value;
    if m.Some? && c.name != "" then
      [Symbol(m.value, f.naming.mod + f.naming.sep + (if c.qn == "" then c.name else c.qn) + f.naming.sep + m.value,
              if c.funcBody then Function else Method, num, line.end, f.naming.mod + f.naming.sep + c.name)]
    else if m.Some? then
      [Symbol(m.value, scope + f.naming.sep + m.value, Function, num, line.end, parent)]
    else if line.variable.Some? then
      [Symbol(line.variable.value, scope + f.naming.sep + line.variable.value, Variable, num, line.end, parent)]
    else []
  }

  function TopQN(funcStack: seq<FuncScope>): Option<string> {
    if funcStack == [] then None else Some(funcStack[|funcStack| - 1].qn)
  }

  /** The frame a scope-opening line pushes. */
  function PushedBy(naming: Naming, top: Option<string>, mark: Mark): seq<FuncScope> {
    if mark.opens.None? then []
    else [FuncScope((if top.None? then naming.mod else top.value) + naming.sep + mark.opens.value, mark.end)]
  }

  method Declare(f: File, line: Line, lineNum: int, c: ClassScope, funcStack: seq<FuncScope>)
    returns (declared: seq<Symbol>, pushed: seq<FuncScope>)
    ensures declared == Declared(f, line, lineNum, c, TopQN(funcStack))
    ensures pushed == PushedBy(f.naming, TopQN(funcStack), MarkOf(line, c, f.hasMethodRE))
  {
    declared, pushed := [], [];
    var m := FuncMatch(line, c, f.hasMethodRE);
    if m.Some? {
      var kind, qn, parent := Function, f.naming.mod + f.naming.sep + m.value, "";
      if c.name != "" {
        if !c.funcBody {
          kind := Method;
        }
        parent := f.naming.mod + f.naming.sep + c.name;
        qn := f.naming.mod + f.naming.sep + (if c.qn == "" then c.name else c.qn) + f.naming.sep + m.value;
      } else if |funcStack| > 0 {
        parent := funcStack[|funcStack| - 1].qn;
        qn := parent + f.naming.sep + m.value;
      }
      declared := [Symbol(m.value, qn, kind, lineNum, line.end, parent)];
      if c.name == "" {
        pushed := [FuncScope(qn, line.end)];
      }
    } else if line.variable.Some? {
      var parent, qn := "", f.naming.mod + f.naming.sep + line.variable.value;
      if |funcStack| > 0 {
        parent := funcStack[|funcStack| - 1].qn;
        qn := parent + f.naming.sep + line.variable.value;
      }
      declared := [Symbol(line.variable.value, qn, Variable, lineNum, line.end, parent)];
    }
  }

  /** The innermost function on the stack on line n. */
  function TopAt(naming: Naming, marks: seq<Mark>, n: nat): Option<string>
    requires n < |marks|
  {
    TopQN(Frames(naming, marks, StackAt(marks, n)))
  }

  /** Everything line n declares. */
  function SymbolsAt(f: File, marks: seq<Mark>, n: nat): seq<Symbol>
    requires n < |f.lines| == |marks|
  {
    ContainersAt(f, n) + Declared(f, f.lines[n], n + 1, SlotAt(f, n), TopAt(f.naming, marks, n))
  }

  lemma {:induction false} TopFrame(naming: Naming, marks: seq<Mark>, stack: seq<nat>)
    requires Scopes(marks, stack, |marks|)
    ensures TopQN(Frames(naming, marks, stack)) == if stack == [] then None else Some(Innermost(naming, marks, stack))
  {
  }

  lemma {:induction false} InnermostPush(naming: Naming, marks: seq<Mark>, stack: seq<nat>, n: nat)
    requires n < |marks| && Scopes(marks, stack, n) && marks[n].opens.Some?
    ensures Scopes(marks, stack + [n], |marks|)
    ensures Innermost(naming, marks, stack + [n]) == NameIn(naming, marks, stack, marks[n].opens.value)
  {
    assert (stack + [n])[..|stack|] == stack;
  }

  lemma {:induction false} FramesPush(naming: Naming, marks: seq<Mark>, stack: seq<nat>, n: nat)
    requires n < |marks| && Scopes(marks, stack, n) && marks[n].opens.Some?
    ensures Scopes(marks, stack + [n], |marks|)
    ensures Frames(naming, marks, stack + [n])
         == Frames(naming, marks, stack) + PushedBy(naming, TopQN(Frames(naming, marks, stack)), marks[n])
  {
    var grown := stack + [n];
    assert grown[..|grown| - 1] == stack && grown[|grown| - 1] == n;
    InnermostPush(naming, marks, stack, n);
    TopFrame(naming, marks, stack);
    NameUnder(naming, marks, stack, marks[n].opens.value);
    assert Frames(naming, marks, grown)
        == Frames(naming, marks, stack) + [FuncScope(Innermost(naming, marks, grown), marks[n].end)];
  }

  lemma {:induction false} NameUnder(naming: Naming, marks: seq<Mark>, stack: seq<nat>, name: string)
    requires Scopes(marks, stack, |marks|)
    ensures NameIn(naming, marks, stack, name)
         == (if stack == [] then naming.mod else Innermost(naming, marks, stack)) + naming.sep + name
  {
  }

  lemma {:induction false} PushFrame(naming: Naming, marks: seq<Mark>, n: nat)
    requires n < |marks|
    ensures Frames(naming, marks, StackAt(marks, n)) + PushedBy(naming, TopAt(naming, marks, n), marks[n])
         == Frames(naming, marks, StackBefore(marks, n + 1))
  {
    var stack := StackAt(marks, n);
    if marks[n].opens.Some? {
      FramesPush(naming, marks, stack, n);
    } else {
      assert StackBefore(marks, n + 1) == stack;
    }
  }

  lemma {:induction false} MarkAt(f: File, n: nat)
    requires n < |f.lines|
    ensures MarksOf(f)[n] == MarkOf(f.lines[n], SlotAt(f, n), f.hasMethodRE)
  {
  }

  /** The line loop of `regexExtractor.extract`. */
  /** The extractor's line loop. The symbols are those of the types, namespaces, functions, methods and variables that
      the lines declare, each just once, line by line and on one line in the order of the patterns. Types are declared
      wherever their patterns match, a namespace only where no block holds the slot. In a block that is no namespace
      methods are declared, by a pattern of their own if there is one, elsewhere functions, and where neither matches
      variables. */
  method Extract(f: File) returns (symbols: seq<Symbol>, ghost contexts: seq<Context>)
    ensures |contexts| == |f.lines| && forall n | 0 <= n < |contexts| :: contexts[n] == ContextAt(f, n)
    ensures forall i, j | 0 <= i < j < |symbols| :: Precedes(symbols[i], symbols[j])
    ensures forall s: Symbol :: s in symbols <==>
              0 < s.start <= |f.lines| &&
              var line, x := f.lines[s.start - 1], contexts[s.start - 1];
              var c, mod, sep := x.slot, f.naming.mod, f.naming.sep;
              var matched := if c.name != "" && !c.funcBody && f.hasMethodRE then line.method_ else line.func;
              && s.end == line.end
              && match s.kind
                 case Class => line.class_ == Some(s.name) && s.qn == mod + sep + s.name && s.parent == line.base
                 case Interface => line.interface_ == Some(s.name) && s.qn == mod + sep + s.name && s.parent == ""
                 case Enum => line.enum == Some(s.name) && s.qn == mod + sep + s.name && s.parent == ""
                 case Module =>
                   && line.ns == Some(s.name) && line.scope.None? && x.free
                   && s.qn == mod + sep + s.name && s.parent == ""
                 case Method =>
                   && line.class_.None? && c.name != "" && !c.funcBody && matched == Some(s.name)
                   && s.qn == mod + sep + c.qn + sep + s.name && s.parent == mod + sep + c.name
                 case Function =>
                   && line.class_.None? && line.func == Some(s.name)
                   && if c.name != "" then
                        c.funcBody && s.qn == mod + sep + c.qn + sep + s.name && s.parent == mod + sep + c.name
                      else Scoped(f, x.top, s)
                 case Variable =>
                   line.variable == Some(s.name) && (line.class_.Some? || matched.None?) && Scoped(f, x.top, s)
  {
    symbols := ScanLines(f);
    contexts := ContextsOf(f);
    SymbolsJoined(f, |f.lines|);
    FileLawful(f, contexts, Lists(f, |f.lines|));
  }

  /** The loop itself. */
  method ScanLines(f: File) returns (symbols: seq<Symbol>)
    ensures symbols == SymbolsOf(f, MarksOf(f), |f.lines|)
  {
    ghost var marks := MarksOf(f);
    symbols := [];
    var current := NO_CLASS;
    var funcStack: seq<FuncScope> := [];
    for n := 0 to |f.lines|
      invariant symbols == SymbolsOf(f, marks, n)
      invariant HoldsBefore(f, n, current)
      invariant funcStack == Frames(f.naming, marks, StackBefore(marks, n))
    {
      var declared;
      MarkAt(f, n);
      current, funcStack, declared := ExtractLine(f, marks, n, current, funcStack);
      symbols := symbols + declared;
    }
  }

  /** Everything the first n lines declare. */
  ghost function SymbolsOf(f: File, marks: seq<Mark>, n: nat): seq<Symbol>
    requires n <= |f.lines| == |marks|
  {
    if n == 0 then [] else SymbolsOf(f, marks, n - 1) + SymbolsAt(f, marks, n - 1)
  }

  ghost function Lists(f: File, n: nat): (lists: seq<seq<Symbol>>)
    requires n <= |f.lines|
    ensures |lists| == n && forall k | 0 <= k < n :: lists[k] == SymbolsAt(f, MarksOf(f), k)
  {
    seq(n, k requires 0 <= k < n => SymbolsAt(f, MarksOf(f), k))
  }

  lemma {:induction false} SymbolsJoined(f: File, n: nat)
    requires n <= |f.lines|
    ensures SymbolsOf(f, MarksOf(f), n) == Joined(Lists(f, n))
    decreases n
  {
    if n > 0 {
      SymbolsJoined(f, n - 1);
      assert Lists(f, n)[..n - 1] == Lists(f, n - 1);
    }
  }

  /** The order in which the patterns of a line are tried. */
  function Order(k: Kind): nat {
    match k
    case Class => 0
    case Module => 1
    case Interface => 2
    case Enum => 3
    case _ => 4
  }

  /** A function scope is opened by a function outside every block, and only by one. */
  lemma {:induction false} MarksAre(f: File, n: nat)
    requires n < |f.lines|
    ensures MarksOf(f)[n].end == f.lines[n].end
    ensures MarksOf(f)[n].opens ==
            if f.lines[n].class_.None? && SlotAt(f, n).name == "" then f.lines[n].func else None
  {
    MarkAt(f, n);
  }

  /** The innermost function on a line is that of the last scope on the stack. */
  lemma {:induction false} TopIs(f: File, n: nat)
    requires n < |f.lines|
    ensures var stack := StackAt(MarksOf(f), n);
            ContextAt(f, n).top == if stack == [] then None else Some(Innermost(f.naming, MarksOf(f), stack))
  {
    TopFrame(f.naming, MarksOf(f), StackAt(MarksOf(f), n));
  }

  /** The names of functions and what is in them: the module for a stack of none, one more part for each function. */
  lemma {:induction false} NameInForms(naming: Naming, marks: seq<Mark>, stack: seq<nat>, i: nat, name: string)
    requires Scopes(marks, stack + [i], |marks|)
    ensures Scopes(marks, stack, |marks|) && i < |marks| && marks[i].opens.Some?
    ensures NameIn(naming, marks, [], name) == naming.mod + naming.sep + name
    ensures NameIn(naming, marks, stack + [i], name) ==
            NameIn(naming, marks, stack, marks[i].opens.value) + naming.sep + name
    ensures Innermost(naming, marks, stack + [i]) == NameIn(naming, marks, stack, marks[i].opens.value)
  {
    var s := stack + [i];
    assert s[..|s| - 1] == stack && s[|s| - 1] == i;
    assert forall a | 0 <= a < |stack| :: stack[a] == s[a];
  }

  /** By line, and on one line by the order of the patterns. */
  ghost predicate Precedes(s: Symbol, t: Symbol) {
    s.start < t.start || (s.start == t.start && Order(s.kind) < Order(t.kind))
  }

  ghost predicate InOrder(symbols: seq<Symbol>) {
    forall i, j | 0 <= i < j < |symbols| :: Precedes(symbols[i], symbols[j])
  }

  lemma {:induction false} AppendOrdered(a: seq<Symbol>, b: seq<Symbol>)
    requires InOrder(a) && InOrder(b) && forall s, t | s in a && t in b :: Precedes(s, t)
    ensures InOrder(a + b)
  {
    var c := a + b;
    forall i, j | 0 <= i < j < |c| ensures Precedes(c[i], c[j]) {
      if i < |a| <= j {
        assert c[i] in a && c[j] in b;
      }
    }
  }

  /** What a line's patterns are tried with: the slot, whether a namespace may take it, and the innermost function. */
  datatype Context = Context(slot: ClassScope, free: bool, top: Option<string>)

  /** The symbols of a line in its context. */
  ghost function SymbolsIn(f: File, line: Line, num: int, x: Context): seq<Symbol> {
    TypesIn(f, line, num, x.free) + Declared(f, line, num, x.slot, x.top)
  }

  ghost function TypesIn(f: File, line: Line, num: int, free: bool): seq<Symbol> {
    TypeIn(f, line.class_, Class, num, line.end, line.base)
    + TypeIn(f, if line.scope.None? && free then line.ns else None, Module, num, line.end, "")
    + (TypeIn(f, line.interface_, Interface, num, line.end, "") + TypeIn(f, line.enum, Enum, num, line.end, ""))
  }

  /** A line declares s in its context. */
  ghost predicate LineDeclares(f: File, line: Line, x: Context, s: Symbol) {
    var c, top, mod, sep := x.slot, x.top, f.naming.mod, f.naming.sep;
    var matched := if c.name != "" && !c.funcBody && f.hasMethodRE then line.method_ else line.func;
    && s.end == line.end
    && match s.kind
       case Class => line.class_ == Some(s.name) && s.qn == mod + sep + s.name && s.parent == line.base
       case Interface => line.interface_ == Some(s.name) && s.qn == mod + sep + s.name && s.parent == ""
       case Enum => line.enum == Some(s.name) && s.qn == mod + sep + s.name && s.parent == ""
       case Module =>
         && line.ns == Some(s.name) && line.scope.None? && x.free
         && s.qn == mod + sep + s.name && s.parent == ""
       case Method =>
         && line.class_.None? && c.name != "" && !c.funcBody && matched == Some(s.name)
         && s.qn == mod + sep + c.qn + sep + s.name && s.parent == mod + sep + c.name
       case Function =>
         && line.class_.None? && line.func == Some(s.name)
         && if c.name != "" then
              c.funcBody && s.qn == mod + sep + c.qn + sep + s.name && s.parent == mod + sep + c.name
            else Scoped(f, top, s)
       case Variable => line.variable == Some(s.name) && (line.class_.Some? || matched.None?) && Scoped(f, top, s)
  }

  /** The symbol is named under the innermost function, or under the module if there is none. */
  ghost predicate Scoped(f: File, top: Option<string>, s: Symbol) {
    && s.qn == (if top.None? then f.naming.mod else top.value) + f.naming.sep + s.name
    && s.parent == if top.None? then "" else top.value
  }

  lemma {:induction false} TypesLawful(f: File, line: Line, num: int, x: Context, s: Symbol)
    ensures s in TypesIn(f, line, num, x.free) <==> s.start == num && Order(s.kind) < 4 && LineDeclares(f, line, x, s)
  {
  }

  lemma {:induction false} DeclaredLawful(f: File, line: Line, num: int, x: Context, s: Symbol)
    requires x.slot.name != "" ==> x.slot.qn != ""
    ensures s in Declared(f, line, num, x.slot, x.top) <==>
            s.start == num && Order(s.kind) == 4 && LineDeclares(f, line, x, s)
  {
  }

  lemma {:induction false} LineLawful(f: File, line: Line, num: int, x: Context, s: Symbol)
    requires x.slot.name != "" ==> x.slot.qn != ""
    ensures s in SymbolsIn(f, line, num, x) <==> s.start == num && LineDeclares(f, line, x, s)
  {
    TypesLawful(f, line, num, x, s);
    DeclaredLawful(f, line, num, x, s);
  }

  ghost function TypeIn(f: File, matched: Option<Name>, kind: Kind, num: int, end: int, parent: string): seq<Symbol> {
    if matched.None? then []
    else [Symbol(matched.value, f.naming.mod + f.naming.sep + matched.value, kind, num, end, parent)]
  }

  lemma {:induction false} TypesInOrder(f: File, line: Line, num: int, free: bool)
    ensures InOrder(TypesIn(f, line, num, free))
    ensures forall s | s in TypesIn(f, line, num, free) :: s.start == num && Order(s.kind) < 4
  {
    var a := TypeIn(f, line.class_, Class, num, line.end, line.base);
    var b := TypeIn(f, if line.scope.None? && free then line.ns else None, Module, num, line.end, "");
    var c := TypeIn(f, line.interface_, Interface, num, line.end, "");
    var d := TypeIn(f, line.enum, Enum, num, line.end, "");
    AppendOrdered(a, b);
    AppendOrdered(c, d);
    AppendOrdered(a + b, c + d);
  }

  lemma {:induction false} DeclaredIsOne(f: File, line: Line, num: int, c: ClassScope, top: Option<string>)
    ensures var d := Declared(f, line, num, c, top);
            InOrder(d) && forall s | s in d :: s.start == num && Order(s.kind) == 4
  {
  }

  lemma {:induction false} LineInOrder(f: File, line: Line, num: int, x: Context)
    ensures InOrder(SymbolsIn(f, line, num, x))
    ensures forall s | s in SymbolsIn(f, line, num, x) :: s.start == num
  {
    TypesInOrder(f, line, num, x.free);
    DeclaredIsOne(f, line, num, x.slot, x.top);
    AppendOrdered(TypesIn(f, line, num, x.free), Declared(f, line, num, x.slot, x.top));
  }

  /** Lists of symbols, one for each line, put together. */
  ghost function Joined(lists: seq<seq<Symbol>>): seq<Symbol> {
    if lists == [] then [] else Joined(lists[..|lists| - 1]) + lists[|lists| - 1]
  }

  ghost predicate OnLine(list: seq<Symbol>, num: int) { InOrder(list) && forall s | s in list :: s.start == num }

  ghost predicate OnLines(lists: seq<seq<Symbol>>) { forall k | 0 <= k < |lists| :: OnLine(lists[k], k + 1) }

  lemma {:induction false} InJoined(lists: seq<seq<Symbol>>, s: Symbol)
    requires OnLines(lists)
    ensures s in Joined(lists) <==> 0 < s.start <= |lists| && s in lists[s.start - 1]
    decreases |lists|
  {
    if lists != [] {
      InJoined(lists[..|lists| - 1], s);
      assert OnLine(lists[|lists| - 1], |lists|);
    }
  }

  lemma {:induction false} JoinedInOrder(lists: seq<seq<Symbol>>)
    requires OnLines(lists)
    ensures InOrder(Joined(lists))
    decreases |lists|
  {
    if lists != [] {
      var before, last := lists[..|lists| - 1], lists[|lists| - 1];
      JoinedInOrder(before);
      assert OnLine(last, |lists|);
      forall s, t | s in Joined(before) && t in last ensures Precedes(s, t) {
        InJoined(before, s);
      }
      AppendOrdered(Joined(before), last);
    }
  }

  /** The list holds exactly what a line declares in its context. */
  ghost predicate LineIs(f: File, line: Line, num: int, x: Context, list: seq<Symbol>) {
    && OnLine(list, num)
    && forall s: Symbol :: s in list <==> s.start == num && LineDeclares(f, line, x, s)
  }

  lemma {:induction false} SymbolsInLine(f: File, line: Line, num: int, x: Context)
    requires x.slot.name != "" ==> x.slot.qn != ""
    ensures LineIs(f, line, num, x, SymbolsIn(f, line, num, x))
  {
    LineInOrder(f, line, num, x);
    forall s: Symbol ensures s in SymbolsIn(f, line, num, x) <==> s.start == num && LineDeclares(f, line, x, s) {
      LineLawful(f, line, num, x, s);
    }
  }

  ghost predicate LinesAre(f: File, xs: seq<Context>, lists: seq<seq<Symbol>>) {
    && |f.lines| == |xs| == |lists|
    && forall k | 0 <= k < |lists| :: LineIs(f, f.lines[k], k + 1, xs[k], lists[k])
  }

  lemma {:induction false} ListsLawful(f: File, xs: seq<Context>, lists: seq<seq<Symbol>>)
    requires LinesAre(f, xs, lists)
    ensures InOrder(Joined(lists))
    ensures forall s: Symbol :: s in Joined(lists) <==>
              0 < s.start <= |f.lines| && LineDeclares(f, f.lines[s.start - 1], xs[s.start - 1], s)
  {
    forall k | 0 <= k < |lists| ensures OnLine(lists[k], k + 1) {
      assert LineIs(f, f.lines[k], k + 1, xs[k], lists[k]);
    }
    JoinedInOrder(lists);
    forall s: Symbol ensures s in Joined(lists) <==>
      0 < s.start <= |f.lines| && LineDeclares(f, f.lines[s.start - 1], xs[s.start - 1], s) {
      InJoined(lists, s);
      if 0 < s.start <= |f.lines| {
        assert LineIs(f, f.lines[s.start - 1], s.start, xs[s.start - 1], lists[s.start - 1]);
      }
    }
  }

  lemma {:induction false} FileLawful(f: File, xs: seq<Context>, lists: seq<seq<Symbol>>)
    requires |xs| == |f.lines| && forall n | 0 <= n < |xs| :: xs[n] == ContextAt(f, n)
    requires |lists| == |f.lines| && forall k | 0 <= k < |lists| :: lists[k] == SymbolsAt(f, MarksOf(f), k)
    ensures InOrder(Joined(lists))
    ensures forall s: Symbol :: s in Joined(lists) <==>
              0 < s.start <= |f.lines| && LineDeclares(f, f.lines[s.start - 1], xs[s.start - 1], s)
  {
    forall k: nat | k < |lists| ensures LineIs(f, f.lines[k], k + 1, xs[k], lists[k]) {
      LineOfFile(f, k);
    }
    ListsLawful(f, xs, lists);
  }

  lemma {:induction false} LineOfFile(f: File, k: nat)
    requires k < |f.lines|
    ensures LineIs(f, f.lines[k], k + 1, ContextAt(f, k), SymbolsAt(f, MarksOf(f), k))
  {
    SlotQN(f, k);
    SymbolsAtIn(f, k);
    SymbolsInLine(f, f.lines[k], k + 1, ContextAt(f, k));
  }

  /** The context of line n. */
  ghost function ContextAt(f: File, n: nat): Context
    requires n < |f.lines|
  {
    Context(SlotAt(f, n), ClassScopes.Cleared(BlocksOf(f), n), TopAt(f.naming, MarksOf(f), n))
  }

  ghost function ContextsOf(f: File): (xs: seq<Context>)
    ensures |xs| == |f.lines| && forall n | 0 <= n < |xs| :: xs[n] == ContextAt(f, n)
  {
    seq(|f.lines|, n requires 0 <= n < |f.lines| => ContextAt(f, n))
  }

  lemma {:induction false} SymbolsAtIn(f: File, n: nat)
    requires n < |f.lines|
    ensures SymbolsAt(f, MarksOf(f), n) == SymbolsIn(f, f.lines[n], n + 1, ContextAt(f, n))
  {
    TypesAtIn(f, n);
  }

  lemma {:induction false} TypesAtIn(f: File, n: nat)
    requires n < |f.lines|
    ensures ContainersAt(f, n) == TypesIn(f, f.lines[n], n + 1, ClassScopes.Cleared(BlocksOf(f), n))
  {
  }

  /** A slot with a name has a segment for qualified names. */
  lemma {:induction false} SlotQN(f: File, n: nat)
    requires n < |f.lines|
    ensures SlotAt(f, n).name != "" ==> SlotAt(f, n).qn != ""
  {
  }

  /** One iteration. */
  method ExtractLine(f: File, ghost marks: seq<Mark>, n: nat, current: ClassScope, funcStack: seq<FuncScope>)
    returns (current': ClassScope, funcStack': seq<FuncScope>, declared: seq<Symbol>)
    requires n < |f.lines| == |marks| && marks[n] == MarkOf(f.lines[n], SlotAt(f, n), f.hasMethodRE)
    requires HoldsBefore(f, n, current) && funcStack == Frames(f.naming, marks, StackBefore(marks, n))
    ensures HoldsBefore(f, n + 1, current') && funcStack' == Frames(f.naming, marks, StackBefore(marks, n + 1))
    ensures declared == SymbolsAt(f, marks, n)
  {
    var live := PopAt(f.naming, marks, n, funcStack);
    var pushed;
    current', declared, pushed := MatchLine(f, n, current, live);
    funcStack' := live + pushed;
    FramesNext(f, marks, n, live, pushed);
  }

  method PopAt(ghost naming: Naming, ghost marks: seq<Mark>, n: nat, funcStack: seq<FuncScope>)
    returns (live: seq<FuncScope>)
    requires n < |marks| && funcStack == Frames(naming, marks, StackBefore(marks, n))
    ensures live == Frames(naming, marks, StackAt(marks, n))
  {
    live := Pop(naming, marks, StackBefore(marks, n), funcStack, n + 1);
  }

  lemma {:induction false} FramesNext(f: File, marks: seq<Mark>, n: nat, live: seq<FuncScope>, pushed: seq<FuncScope>)
    requires n < |f.lines| == |marks| && marks[n] == MarkOf(f.lines[n], SlotAt(f, n), f.hasMethodRE)
    requires live == Frames(f.naming, marks, StackAt(marks, n))
    requires pushed == PushedBy(f.naming, TopQN(live), MarkOf(f.lines[n], SlotAt(f, n), f.hasMethodRE))
    ensures live + pushed == Frames(f.naming, marks, StackBefore(marks, n + 1))
    ensures ContainersAt(f, n) + Declared(f, f.lines[n], n + 1, SlotAt(f, n), TopQN(live)) == SymbolsAt(f, marks, n)
  {
    PushFrame(f.naming, marks, n);
  }

  /** All patterns of one line. */
  method MatchLine(f: File, n: nat, current: ClassScope, live: seq<FuncScope>)
    returns (current': ClassScope, declared: seq<Symbol>, pushed: seq<FuncScope>)
    requires n < |f.lines| && HoldsBefore(f, n, current)
    ensures Holds(f, n, current')
    ensures declared == ContainersAt(f, n) + Declared(f, f.lines[n], n + 1, SlotAt(f, n), TopQN(live))
    ensures pushed == PushedBy(f.naming, TopQN(live), MarkOf(f.lines[n], SlotAt(f, n), f.hasMethodRE))
  {
    var inside;
    current', declared := MatchContainers(f, n, current);
    inside, pushed := Declare(f, f.lines[n], n + 1, current', live);
    SameSlot(f, f.lines[n], n + 1, current', SlotAt(f, n), TopQN(live));
    declared := declared + inside;
  }

  /** Where a block ends does not matter for what is declared in it. */
  lemma {:induction false} SameSlot(f: File, line: Line, num: int, c: ClassScope, d: ClassScope, top: Option<string>)
    requires c.name == d.name && c.qn == d.qn && c.funcBody == d.funcBody
    ensures Declared(f, line, num, c, top) == Declared(f, line, num, d, top)
    ensures MarkOf(line, c, f.hasMethodRE) == MarkOf(line, d, f.hasMethodRE)
  {
  }

  /** Without crossing function scopes, a declaration scoped through the stack is named after exactly the
      functions whose blocks contain its line, outermost first. */
  lemma {:induction false} ScopedToEnclosing(f: File, n: nat, s: Symbol)
    requires n < |f.lines| && forall i, j :: !Cross(MarksOf(f), i, j)
    requires s in Declared(f, f.lines[n], n + 1, SlotAt(f, n), TopAt(f.naming, MarksOf(f), n))
    requires s.kind == Variable || MarksOf(f)[n].opens.Some?
    ensures var stack := StackAt(MarksOf(f), n);
            && (forall i :: i in stack <==> Encloses(MarksOf(f), i, n))
            && s.qn == NameIn(f.naming, MarksOf(f), stack, s.name)
            && s.parent == if stack == [] then "" else Innermost(f.naming, MarksOf(f), stack)
  {
    var marks := MarksOf(f);
    MarkAt(f, n);
    StackIsExact(marks);
    forall i ensures i in StackAt(marks, n) <==> Encloses(marks, i, n) {
    }
    StackNames(f, marks, n, s);
  }

  lemma {:induction false} StackNames(f: File, marks: seq<Mark>, n: nat, s: Symbol)
    requires n < |f.lines| == |marks| && marks[n] == MarkOf(f.lines[n], SlotAt(f, n), f.hasMethodRE)
    requires s in Declared(f, f.lines[n], n + 1, SlotAt(f, n), TopAt(f.naming, marks, n))
    requires s.kind == Variable || marks[n].opens.Some?
    ensures s.qn == NameIn(f.naming, marks, StackAt(marks, n), s.name)
    ensures s.parent == if StackAt(marks, n) == [] then "" else Innermost(f.naming, marks, StackAt(marks, n))
  {
    var line, c, top := f.lines[n], SlotAt(f, n), TopAt(f.naming, marks, n);
    var d := Declared(f, line, n + 1, c, top);
    assert |d| <= 1;
    assert s == d[0];
  }

  // ---------- Functions and the class scope ----------

  /** When the slot is exact, a function or method matched inside a type, impl or namespace block is declared under the
      innermost one, and one matched outside every block opens a function scope. */
  lemma {:induction false} DeclaredInInnermost(f: File, n: nat, s: Symbol)
    requires n < |f.lines|
    requires forall m :: !ClassScopes.Refused(BlocksOf(f), m) && !ClassScopes.Forgotten(BlocksOf(f), m)
    requires s in Declared(f, f.lines[n], n + 1, SlotAt(f, n), TopAt(f.naming, MarksOf(f), n)) && !s.kind.Variable?
    ensures forall j: nat | ClassScopes.Innermost(BlocksOf(f), j, n) ::
              var (name, qn) := BlockName(f.lines[j], j + 1, f.naming.sep);
              && s.parent == f.naming.mod + f.naming.sep + name
              && s.qn == f.naming.mod + f.naming.sep + qn + f.naming.sep + s.name
              && (s.kind.Method? <==> !ClassScopes.InNamespace(BlocksOf(f), n))
    ensures (forall j :: !ClassScopes.Covers(BlocksOf(f), j, n)) ==> MarksOf(f)[n].opens == Some(s.name)
  {
    var blocks, top := BlocksOf(f), TopAt(f.naming, MarksOf(f), n);
    ClassScopes.ExactUpTo(blocks, n);
    MarkAt(f, n);
    DeclaredUnder(f, f.lines[n], n + 1, SlotAt(f, n), top, s);
    forall j: nat | ClassScopes.Innermost(blocks, j, n)
      ensures var (name, qn) := BlockName(f.lines[j], j + 1, f.naming.sep);
              && SlotAt(f, n) == ClassScope(name, qn, f.lines[j].end, ClassScopes.InNamespace(blocks, n))
              && name != "" && qn != ""
    {
      SlotOfInnermost(f, n, j);
    }
  }

  lemma {:induction false} SlotOfInnermost(f: File, n: nat, j: nat)
    requires n < |f.lines| && ClassScopes.Exact(BlocksOf(f), n) && ClassScopes.Innermost(BlocksOf(f), j, n)
    ensures var (name, qn) := BlockName(f.lines[j], j + 1, f.naming.sep);
            && SlotAt(f, n) == ClassScope(name, qn, f.lines[j].end, ClassScopes.InNamespace(BlocksOf(f), n))
            && name != "" && qn != ""
  {
    var blocks := BlocksOf(f);
    var holder := ClassScopes.HolderAt(blocks, n);
    if holder.Some? {
      ClassScopes.InnermostUnique(blocks, j, holder.value, n);
    }
    assert blocks[j] == BlockOf(f.lines[j], j + 1);
  }

  lemma {:induction false} DeclaredUnder(f: File, line: Line, num: int, c: ClassScope, top: Option<string>, s: Symbol)
    requires s in Declared(f, line, num, c, top) && !s.kind.Variable?
    ensures FuncMatch(line, c, f.hasMethodRE) == Some(s.name)
    ensures c.name != "" && c.qn != "" ==>
              && s.parent == f.naming.mod + f.naming.sep + c.name
              && s.qn == f.naming.mod + f.naming.sep + c.qn + f.naming.sep + s.name
              && (s.kind.Method? <==> !c.funcBody)
  {
    var d := Declared(f, line, num, c, top);
    assert |d| == 1 && s == d[0];
  }

  /** A line none of whose patterns match. */
  const PLAIN := Line(None, "", None, "", None, None, None, None, None, None, 0)

  lemma {:induction false} NoStack(marks: seq<Mark>, n: nat)
    requires n < |marks| && forall i | 0 <= i < n :: marks[i].opens.None?
    ensures StackAt(marks, n) == []
  {
    if n > 0 {
      NoStack(marks, n - 1);
    }
    assert StackBefore(marks, n) == [];
  }

  /** Class A on lines 1 to 10, class B on lines 2 to 4 inside it, a method on line 6. */
  function NestedClasses(naming: Naming, hasMethodRE: bool): File {
    File([PLAIN.(class_ := Some("A"), end := 10), PLAIN.(class_ := Some("B"), end := 4), PLAIN, PLAIN, PLAIN,
          PLAIN.(func := Some("m"), method_ := Some("m"), end := 7)], naming, hasMethodRE)
  }

  lemma {:induction false} NestedHolders(f: File)
    requires f == NestedClasses(f.naming, f.hasMethodRE)
    ensures ClassScopes.HolderAt(BlocksOf(f), 5) == None && ClassScopes.Innermost(BlocksOf(f), 0, 5)
  {
    var blocks := BlocksOf(f);
    ClassScopes.TypeHolds(blocks, 1, 3);
    assert ClassScopes.HolderAt(blocks, 4) == None;
  }

  lemma {:induction false} NestedStack(f: File)
    requires f == NestedClasses(f.naming, f.hasMethodRE)
    ensures TopAt(f.naming, MarksOf(f), 5) == None
  {
    forall i | 0 <= i < 5 ensures MarksOf(f)[i].opens.None? {
      MarkAt(f, i);
      NothingMatched(f.lines[i], SlotAt(f, i), f.hasMethodRE);
    }
    NoStack(MarksOf(f), 5);
  }

  lemma {:induction false} NothingMatched(line: Line, c: ClassScope, hasMethodRE: bool)
    requires line.func.None? && line.method_.None?
    ensures MarkOf(line, c, hasMethodRE).opens.None?
  {
  }

  /** A still covers line 6, but the slot is empty since B ended, and the method comes out as a function of the module
      that opens a scope of its own. */
  lemma {:induction false} OuterClassForgotten(f: File)
    requires f == NestedClasses(f.naming, f.hasMethodRE)
    ensures ClassScopes.Innermost(BlocksOf(f), 0, 5) && SlotAt(f, 5) == NO_CLASS
    ensures Declared(f, f.lines[5], 6, SlotAt(f, 5), TopAt(f.naming, MarksOf(f), 5))
         == [Symbol("m", f.naming.mod + f.naming.sep + "m", Function, 6, 7, "")]
    ensures MarksOf(f)[5].opens == Some("m")
  {
    NestedHolders(f);
    NestedStack(f);
    MarkAt(f, 5);
    PlainFunction(f, f.lines[5], 6, "m");
  }

  lemma {:induction false} PlainFunction(f: File, line: Line, num: int, name: Name)
    requires line.class_.None? && line.func == Some(name)
    ensures Declared(f, line, num, NO_CLASS, None)
         == [Symbol(name, f.naming.mod + f.naming.sep + name, Function, num, line.end, "")]
    ensures MarkOf(line, NO_CLASS, f.hasMethodRE).opens == Some(name)
  {
  }

  /** A namespace on lines 1 to 2 and class C from line 3 on: the line after a namespace is not cleared before the class
      pattern is tried, so C counts as a namespace and its methods are not looked for. */
  lemma {:induction false} NamespaceLeaks(naming: Naming, m: Line, top: Option<string>)
    requires m == PLAIN.(method_ := Some("m"), end := 4)
    ensures var f := File([PLAIN.(ns := Some("N"), end := 2), PLAIN, PLAIN.(class_ := Some("C"), end := 5), m],
                          naming, true);
            && ClassScopes.HolderAt(BlocksOf(f), 3) == Some(2) && !ClassScopes.Covers(BlocksOf(f), 0, 2)
            && SlotAt(f, 3) == ClassScope("C", "C", 5, true)
            && ClassScopes.TakesOver(BlocksOf(f), 2)
            && Declared(f, m, 4, SlotAt(f, 3), top) == []
  {
    var f := File([PLAIN.(ns := Some("N"), end := 2), PLAIN, PLAIN.(class_ := Some("C"), end := 5), m], naming, true);
    var blocks := BlocksOf(f);
    assert ClassScopes.HolderAt(blocks, 0) == Some(0) && ClassScopes.InNamespace(blocks, 0);
    assert ClassScopes.HolderAt(blocks, 1) == Some(0) && ClassScopes.InNamespace(blocks, 1);
    assert ClassScopes.HolderAt(blocks, 2) == Some(2) && ClassScopes.InNamespace(blocks, 2);
    assert ClassScopes.Left(blocks, 0, 2) && ClassScopes.IsNamespace(blocks[0]);
    assert ClassScopes.HolderAt(blocks, 3) == Some(2) && ClassScopes.InNamespace(blocks, 3);
  }
}
