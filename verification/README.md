# pincher: a verified model of its extraction, graph and hook logic

pincher builds a graph of symbols from source text, walks it, and installs itself into coding agents through hooks
and a setup wizard. This project models the parts of it where a small slip would go unnoticed, and proves what each
part is for, over every input, every run or every event sequence. `dafny verify dfyconfig.toml` checks all of it.

| file | part of pincher | main results |
|---|---|---|
| `BraceScanner.dfy` | two-mode block scanner | the scan's answer in terms of the text alone; bodies of any two scans never cross |
| `FunctionScopes.dfy` | the line loop | the stack is exactly the enclosing functions if and only if no two scopes cross; names follow the enclosing functions and the innermost type |
| `ClassScopes.dfy` | the line loop's class slot | the slot is the innermost type, impl or namespace block on every line if and only if no block is refused or forgotten; slot and namespace flag are both right if and only if besides no type is taken for a namespace |
| `BraceScopes.dfy` | scanner and stack together | in every brace file, function scopes cross if and only if one is closed inside the header of a later one, or its own header stops inside a later body |
| `Disambiguation.dfy` | repair of colliding names | all keys distinct if and only if repeats start on lines of their own and no name already spells a repeat's new name |
| `GoSyntax.dfy` | which names a Go body reads and writes | the report stream is that of exactly the places whose rule reports something, in source order; when a name is written and when it is read, by the shape of the tree alone |
| `GoReads.dfy` | recursive read/write walker | a WRITES edge if and only if a reached statement assigns the name, a READS edge if and only if a reached place reads it; one per kind and name, in first-report order |
| `LineOffsets.dfy` | line lookup | binary search and linear count agree, except past a final newline |
| `HtmlHeadings.dfy` | headings to sections | ranges nest or are disjoint; a name lists exactly the containing sections |
| `Hcl.dfy` | Terraform references and names | exact edge set; sibling names distinct if and only if no label spells a sibling's number; all names if and only if besides no nested block spells a sibling's labels |
| `Callflow.dfy` | capped two-direction search | `truncated` if and only if more than 150 nodes lie within reach; otherwise the whole ball; edges exactly the rows in reach between kept nodes |
| `Closure.dfy` | all-sources closure table | rows are exactly the shortest-walk triples, each inserted once |
| `EditDistance.dfy` | two-row Levenshtein | the length of a shortest chain of single edits; symmetric; triangle inequality |
| `Connections.dfy` | rare cross-package edges | the rows do not depend on the order of the edges |
| `HookMerge.dfy` | settings merge | second merge is a no-op; everything kept if and only if the lists are well typed |
| `SetupWizard.dfy` | wizard state machine | invariant of every key sequence; applied at most once, never after a cancel |
| `HookAdvisories.dfy` | log-driven advisories | each fires at the first event at which it is due, and at no other; for the index advisory the exact condition, which an unchanging file system meets |
| `Repositories.dfy` | a file's repository | the deepest directory with a .git; exactly which paths the log's prefix test is right about |
| `NameTrees.dfy` | names in names | full names are distinct if and only if at every level siblings are apart |
| `Text.dfy`, `Sorting.dfy`, `Graph.dfy`, `Collections.dfy` | shared | string order, numerals, dotted names; sorted enumeration; walks and balls; options, occurrence counts |

Conventions. A string holds one `char` per byte. Go maps are ranged over in an order the proofs know nothing about.
Results of foreign code (regular expressions, parsers, the file system, the database connection) come in as
parameters. A method is proved against a function or predicate that says what it computes, and the theorems are about
that. A loop whose body is long is a method of its own (`Round`, `ExpandNode`, `ExtractLine`, `ScanBody` and the like).

Where the code and its comments differ, the code is modelled:

- The comment on `hclCollectReferences` promises one edge for each pair of names (internal/ast/hcl.go:173-184); the
  set of names already seen is new at every level. `CollectReferences` states exactly when the list has no repeats.
- `disambiguateDuplicates` keys its collision table by name alone, so of two colliding kinds one count is kept
  (internal/ast/extractor.go:2622-2627).
- A function literal below the root of a plain read is inspected as reads, not walked as statements
  (internal/ast/extractor.go:1656-1676).
- The comments on closures say that what they read and write is not to vanish (internal/ast/extractor.go:1611-1623); it
  does when the closure is called through parentheses or through a wrapper.
- An index advisory's log row carries the repository root in place of the file, so the Read that triggers it is not
  counted by path afterwards. `LoggedReadsAgree` shows what this can cost another repository's counter.
- The class slot remembers one block. The comments speak of the class a line is in; when a nested block ends, the
  outer one is no longer known (internal/ast/extractor.go:2208-2213).

Properties that do not hold of the code for every input have a concrete counterexample and an exact condition:

| property | counterexample | exact condition |
|---|---|---|
| names are distinct after disambiguation | `SameLineStillCollides`, `SpelledNameCollides` | `DistinctIff` |
| the class slot is the innermost block | `OuterClassForgotten` | `SlotIsExact` |
| the namespace flag tells namespaces from classes | `NamespaceLeaks` | `SlotAndFlagExact`, `FlagOnSpans` |
| the function stack is the enclosing functions | `CrossedScopeLingers`, `UnclosedHeaderCrosses`, `SharedLineCrosses` | `StackIsExact`, `BraceStackIsExact` |
| an assignment is reported as a write | `ReturnedClosureReads`, `WrappedClosureSilent` | `WriteIsAssigned`, `WalkedIff` |
| sibling blocks have distinct names | `NumberedSiblingCollides` | `SiblingsDistinctIff` |
| all nested blocks have distinct names | `NestedNameCollides` | `NamesDistinctIff` |
| the index advisory fires when it is due | `NewRepositoryDelays` | `ExactIff` |
| the log counts a Read under exactly the directories its file is in | `DetourMiscounted`, `DetourAdvises` | `RightlyCountedIff` |
| a second merge changes nothing | `ForeignCommandRepeats` | `SecondMergeIsNoop` |
| a merge keeps everything | `UntypedHooksLost` | `MergeKeepsIff` |
| both line lookups agree | `LookupsDiffer` | `LookupsAgree` |

## Model

| member | source | states |
|---|---|---|
| `BraceScanner.DeclContinuationAt` | internal/ast/extractor.go:4336-4366 | the first byte behind the newline that is no blank decides: a `{` or `->` continues, the whole word `where` opens a clause, anything else or the end of the file stops |
| `BraceScanner.ContinuationIs` | internal/ast/extractor.go:4350-4362 | the same as an if and only if on the bytes, the end of the word included |
| `BraceScanner.StopsIff` | internal/ast/extractor.go:4382-4410 | outside parentheses a header stops at every `{` and `;`, and at a newline unless a `where` clause has begun or what follows is a `{`, a `->` or the whole word `where`; it stops nowhere else |
| `BraceScanner.InWhereIff` | internal/ast/extractor.go:4399-4410 | a `where` clause has begun if and only if some earlier newline outside parentheses is followed by that word |
| `BraceScanner.DepthIsSurplus` | internal/ast/extractor.go:4385-4390 | the depth in parentheses is the largest surplus of `(` over `)` in any stretch that ends here, so a stray `)` does not count |
| `BraceScanner.FirstInkUnique` | internal/ast/extractor.go:4337-4341 | the place that decides is unique, so the continuation is a function of the text |
| `BraceScanner.ScanBody` | internal/ast/extractor.go:4378-4427 | an opened body ends with its shortest balanced prefix, or with the file if no prefix balances |
| `BraceScanner.BalanceCounts` | internal/ast/extractor.go:4414-4421 | the balance is the number of `{` less the number of `}` |
| `BraceScanner.FindBraceBlock` | internal/ast/extractor.go:4377-4427 | with no stop the answer is the file's end, at `;` it is just past it, at a newline it is that newline, and at `{` opening braces outnumber closing ones up to the answer, where they are even or the file ends; always within [start, length] |
| `BraceScanner.BlockEndUnique` | internal/ast/extractor.go:4377-4427 | that description has one solution, so it determines the scanner's answer |
| `BraceScanner.OpenStaysPositive` | internal/ast/extractor.go:4411-4424 | inside an open body every prefix has more opening than closing braces |
| `BraceScanner.BodiesNeverCross` | internal/ast/extractor.go:4411-4424 | the bodies of any two opening braces are disjoint or nested, also in unbalanced files |
| `BraceScanner.ScansNeverCross` | internal/ast/extractor.go:4377-4427 | so are the bodies that scans from any two starts open |
| `FunctionScopes.StackIsExact` | internal/ast/extractor.go:2143-2164 | after the pop loop the stack holds exactly the functions around every line, if and only if no two function scopes cross |
| `FunctionScopes.CrossedScopeLingers` | internal/ast/extractor.go:2162-2164 | a scope crossed by a later one is still on the stack on the line after its end |
| `FunctionScopes.TopIsInnermost` | internal/ast/extractor.go:2157-2164 | crossing or not, the top of the stack is the innermost function around the line, and an empty stack means there is none |
| `FunctionScopes.LastFunctionOpen` | internal/ast/extractor.go:2162-2164 | the function opened last before a line is on the stack there if and only if its end line is not before that line |
| `FunctionScopes.Pop` | internal/ast/extractor.go:2162-2164 | the pop loop leaves the frames of exactly the longest prefix whose top has not ended |
| `FunctionScopes.MatchContainers` | internal/ast/extractor.go:2175-2320 | after a line's class, impl, namespace, interface and enum patterns the slot names the block that `ClassScopes.HolderAt` says holds it, and the line's container symbols are emitted |
| `FunctionScopes.SlotOnLine` | internal/ast/extractor.go:2175-2325 | the slot of a line by the line and the slot before: an enum before an interface before a class takes it, otherwise a block that goes on keeps it, otherwise an impl block with its trait or a namespace takes it; and when the flag is up |
| `FunctionScopes.DeclaredInInnermost` | internal/ast/extractor.go:2322-2417 | when no block is refused or forgotten, a function or method inside a block is declared under the innermost one, as a method unless the block counts as a namespace; outside every block it opens a function scope |
| `FunctionScopes.OuterClassForgotten` | internal/ast/extractor.go:2208-2213 | counterexample: after an inner class has ended, a method of the outer class is declared as a function of the module and pushed on the stack |
| `FunctionScopes.NamespaceLeaks` | internal/ast/extractor.go:2175-2213 | counterexample: a class on the line after a namespace's end counts as a namespace, and its methods are not found |
| `ClassScopes.SlotIsExact` | internal/ast/extractor.go:2175-2320 | on every line the slot holds the innermost type, impl or namespace block around it or tells that there is none, if and only if no impl or namespace block opens inside a block that goes on and no block is left or dropped while an outer one goes on |
| `ClassScopes.ExactStep` | internal/ast/extractor.go:2208-2213 | from one line to the next the slot stays exact if and only if that line neither refuses nor forgets a block |
| `ClassScopes.TypeHolds` | internal/ast/extractor.go:2175-2206 | however blocks nest, the latest type declaration holds the slot while its block lasts, unless a class that ends before its own line empties it |
| `ClassScopes.InNamespaceIff` | internal/ast/extractor.go:2208-2270 | the namespace flag is up if and only if a namespace opened the stretch of lines on which the slot was not cleared |
| `ClassScopes.FlagIsExact` | internal/ast/extractor.go:2208-2270 | the flag tells namespaces from other blocks on every line if and only if no type declaration takes the slot over from a namespace without a clearing in between, whatever the slot's state |
| `ClassScopes.FlagOnSpans` | internal/ast/extractor.go:2175-2320 | when no block is refused or forgotten, the flag is right on every line if and only if no type declaration opens while the innermost block of the line before is a namespace that goes on (any namespace, for the class pattern), nor on the line of a namespace where no block goes on |
| `ClassScopes.SlotAndFlagExact` | internal/ast/extractor.go:2175-2320 | for all blocks, slot and flag are both right on every line if and only if no block is refused or forgotten and no type declaration is taken for a namespace in that way |
| `BraceScopes.WhyBlocksCross` | internal/ast/extractor.go:4377-4427 | if a later block starts within an earlier one and ends after it, the earlier ends inside the later header, or the earlier header stops inside the later body |
| `BraceScopes.CrossIff` | internal/ast/extractor.go:4377-4441 | two scanned scopes cross if and only if a line starts between their ends and one of those two is the case, wherever the headers stop |
| `BraceScopes.CrossIffOverlaps` | internal/ast/extractor.go:4377-4441 | the same for any two lines of a file whose block ends the scanner gave |
| `BraceScopes.BraceStackIsExact` | internal/ast/extractor.go:2143-2164 | in every such file the stack is exactly the enclosing functions on every line, if and only if no two functions overlap in that way |
| `BraceScopes.UnclosedHeaderCrosses` | internal/ast/extractor.go:4377-4410 | counterexample: an unclosed parenthesis carries a header into the body of the next function, and the two scopes cross |
| `BraceScopes.SharedLineCrosses` | internal/ast/extractor.go:4377-4441 | counterexample: a line that closes one function and opens the next makes them cross |
| `FunctionScopes.Declare` | internal/ast/extractor.go:2322-2505 | the function, method or variable a line declares, under its class, the innermost open function or the module, and the frame it pushes |
| `FunctionScopes.ExtractLine` | internal/ast/extractor.go:2149-2505 | one iteration carries slot and frames of line n to those of line n + 1 and emits what the line declares |
| `FunctionScopes.Extract` | internal/ast/extractor.go:2097-2505 | a symbol is emitted if and only if its line declares it: types wherever their patterns match, a namespace where no block holds the slot, a method in a block that is no namespace by the method pattern if there is one, otherwise a function, and a variable where neither matches; each with its name, qualified name, kind, lines and parent, each once, by line and on one line in the order of the patterns |
| `FunctionScopes.MarksAre` | internal/ast/extractor.go:2415-2417 | a function scope is opened by a function outside every block, and only by one |
| `FunctionScopes.TopIs` | internal/ast/extractor.go:2378-2387 | the innermost function of a line is that of the last scope on its stack |
| `FunctionScopes.NameInForms` | internal/ast/extractor.go:2378-2387 | the name of what is in no function is module and name, and each function adds one part |
| `FunctionScopes.StackNames` | internal/ast/extractor.go:2378-2417 | a declaration scoped through the stack is named module, stacked functions outermost first, own name, and its parent is the innermost of them |
| `FunctionScopes.ScopedToEnclosing` | internal/ast/extractor.go:2484-2490 | without crossing scopes, those functions are exactly the ones whose block contains the line |
| `Disambiguation.FileResult.DisambiguateDuplicates` | internal/ast/extractor.go:2613-2645 | a symbol gets a tilde and its line behind its name if and only if an earlier one has its qualified name and kind, and nothing else changes; the collision table is untouched without collisions, else lists every colliding name with the count of one of its kinds |
| `Disambiguation.CollidesIff` | internal/ast/extractor.go:2617-2627 | a name and kind collide if and only if two symbols have them |
| `Collections.CountKeys` | internal/ast/extractor.go:2617-2621 | the counts are those of the (name, kind) pairs |
| `Disambiguation.CollectCollisions` | internal/ast/extractor.go:2622-2627 | whatever the range order, each colliding name is listed with a colliding kind's count |
| `Disambiguation.SuffixRepeats` | internal/ast/extractor.go:2632-2644 | exactly the non-first occurrences of a key are suffixed |
| `Disambiguation.DistinctIff` | internal/ast/extractor.go:2613-2645 | for every input, all keys end up distinct if and only if the repeats of each key start on different lines and no first occurrence already has the name a repeat is given |
| `Disambiguation.DistinctIffOwnLines` | internal/ast/extractor.go:2613-2645 | so for names without a tilde the lines alone decide |
| `Disambiguation.UnchangedIffDistinct` | internal/ast/extractor.go:2613-2645 | a run changes nothing if and only if the keys were distinct, so a second run is a no-op exactly when the first succeeded |
| `Disambiguation.SuffixReadsBack` | internal/ast/extractor.go:2640-2643 | name and line can be read back from any suffixed name, also when the name holds tildes |
| `Disambiguation.SameLineStillCollides` | internal/ast/extractor.go:2632-2644 | counterexample: three declarations of one name on one line still collide |
| `Disambiguation.SpelledNameCollides` | internal/ast/extractor.go:2632-2644 | counterexample: f, f again on line 3, and a symbol called f~3 collide although every repeat has its own line |
| `GoReads.Collector.EmitWrite` | internal/ast/extractor.go:1527-1538 | one more write report, and the state stays the one its reports lead to |
| `GoReads.Collector.EmitRead` | internal/ast/extractor.go:1539-1576 | one more read report, likewise, including the upgrade of an untyped edge through `seenReads` |
| `GoReads.AcceptedForms` | internal/ast/extractor.go:1539-1558 | a write counts unless its name is predeclared; a read counts unless, besides, it is the bare and untyped name of a local |
| `GoReads.Collector.WalkRead` | internal/ast/extractor.go:1601-1677 | adds the stream of a tree that is read: the reports of exactly its reporting places, in source order |
| `GoReads.Collector.Inspect` | internal/ast/extractor.go:1656-1676 | adds the stream of a tree that is part of a plain read |
| `GoReads.Collector.Walk` | internal/ast/extractor.go:1685-1777 | adds the stream of a statement |
| `GoReads.AfterIsStream` | internal/ast/extractor.go:1601-1777 | what a walk adds does not depend on what was reported before |
| `GoReads.AfterOther` | internal/ast/extractor.go:1656-1676 | a node of any other kind is read by reading its children as parts, in order |
| `GoReads.AfterCallee` | internal/ast/extractor.go:1608-1623 | what is called reports its receiver or the body of a literal, and nothing else |
| `GoSyntax.StreamPlaces` | internal/ast/extractor.go:1601-1777 | the stream lists the reports of exactly the places of the tree whose rule reports something, by place, a node after what is below it |
| `GoSyntax.StreamUnique` | internal/ast/extractor.go:1601-1777 | that description has one solution, so the rules of the places determine the stream |
| `GoSyntax.InStreamIff` | internal/ast/extractor.go:1601-1777 | a report is in the stream if and only if the rule of some place makes it |
| `GoSyntax.WritesIff` | internal/ast/extractor.go:1685-1777 | a body writes x if and only if it holds an assignment to the plain name x (a target of a non-declaring assignment, of a range with `=`, or of an increment or decrement) that stands where statements belong, under no plain node and below nothing passed over |
| `GoSyntax.AssignmentForms` | internal/ast/extractor.go:1687-1740 | what an assignment to a plain name is: a target of a non-declaring assignment, of `++` or `--`, or of a range with `=` |
| `GoSyntax.WriteIsAssigned` | internal/ast/extractor.go:1685-1777 | each such assignment is a write at its own place, and no other place is |
| `GoSyntax.WalkedIff` | internal/ast/extractor.go:1685-1777 | a place is walked as a statement if and only if it is where statements belong, no plain node stands above it without a call or selector in between, and nothing above it passes it over |
| `GoSyntax.SkippedIff` | internal/ast/extractor.go:1601-1655 | a place is passed over if and only if it is below a callee that is neither a selector nor a literal, or the package name of an imported member, the type of a literal or the label of a statement, or below one of these |
| `GoSyntax.ReadsIff` | internal/ast/extractor.go:1601-1677 | a body reads a name with a type if and only if a name that is not assigned to there, a member of an imported package or a selector stands for it, is no callee and is not passed over |
| `GoSyntax.SelectorReports` | internal/ast/extractor.go:1635-1655 | a member of an imported package is one read under its qualified name; any other selector on a name reads the name and the member, the latter with the name's type |
| `GoSyntax.StructBaseIs` | internal/ast/extractor.go:1801-1807 | the base of a plain type name, and of a pointer to one, is that name; any other type has none |
| `GoSyntax.PartIff` | internal/ast/extractor.go:1656-1676 | a place is part of a plain read if and only if a node without a case of its own is read above it with no call or selector in between |
| `GoSyntax.PartOnShape` | internal/ast/extractor.go:1656-1676 | for places that are not passed over, whether that node is read can be told by the shape of the tree |
| `GoSyntax.ReturnedClosureReads` | internal/ast/extractor.go:1656-1676 | counterexample: an assignment in a returned closure is reported as a read, in a closure called in place as a write |
| `GoSyntax.WrappedClosureSilent` | internal/ast/extractor.go:1608-1632 | counterexample: an assignment in a closure that is called through parentheses or through a wrapper is not reported at all |
| `GoReads.ExtractGoReads` | internal/ast/extractor.go:1423-1778 | a WRITES edge to x if and only if x is not predeclared and the body assigns it; a READS edge to x if and only if x is not predeclared and some place reads it with a type, under a dotted name, or as no local; so a READS edge to a local has a type; an edge's type is that of the first typed read, and it has none only if no read has; no two edges of one kind and name, in order of first report |
| `GoReads.FirstTypeInBody` | internal/ast/extractor.go:1559-1567 | the type an edge ends up with, in terms of the places of the body |
| `GoReads.WritesEdgeIff` | internal/ast/extractor.go:1527-1538 | edges that summarise a body's stream write exactly the names the body assigns |
| `GoReads.ReadsEdgeIff` | internal/ast/extractor.go:1539-1576 | and read exactly the names it reads |
| `GoReads.LogIndexed` | internal/ast/extractor.go:1539-1576 | after every stream `seenReads` points at the READS edge of each name that has one |
| `GoReads.LogSummarises` | internal/ast/extractor.go:1527-1576 | after every stream there is one edge for the first accepted report of each kind and name, in stream order |
| `GoReads.SummaryMeans` | internal/ast/extractor.go:1527-1576 | each name at most once as READS and once as WRITES, exactly the accepted names, each read typed by the first accepted read that knows a type |
| `GoReads.NewEdge` | internal/ast/extractor.go:1527-1576 | the first accepted report of a key appends its edge |
| `GoReads.TypedEdge` | internal/ast/extractor.go:1557-1567 | the first typed read after untyped ones types the existing edge and nothing else |
| `GoReads.SameEdges` | internal/ast/extractor.go:1527-1576 | rejected and repeated reports leave the edges alone |
| `LineOffsets.BuildLineOffsets` | internal/ast/extractor.go:4136-4144 | 0 and every place behind a newline that is not the last byte, in order |
| `LineOffsets.OffsetToLine` | internal/ast/extractor.go:4430-4441 | how many entries of a sorted table are at or below the offset |
| `LineOffsets.OffsetToLineNumber` | internal/ast/extractor.go:3711-3722 | one more than the number of newlines before the clamped offset |
| `LineOffsets.LookupsAgree` | internal/ast/extractor.go:4430-4441 | both numbers agree for every offset below the length; from the length on the linear one is one greater exactly when the file ends in a newline |
| `LineOffsets.LookupsDiffer` | internal/ast/extractor.go:3711-3722 | counterexample: the end of a file of one newline is on line 1 by the search and on line 2 by the count |
| `LineOffsets.LineBothWays` | internal/ast/extractor.go:3711-3722 | the same, of the three functions run on one file |
| `HtmlHeadings.IndexFold` | internal/ast/html.go:415-445 | the first position that matches up to ASCII case, or -1 if there is none |
| `HtmlHeadings.FoldIff` | internal/ast/html.go:428-436 | two bytes count as alike if and only if they are equal or the two cases of one ASCII letter |
| `HtmlHeadings.FindHeadingAfter` | internal/ast/html.go:368-399 | the first tag of the level at or after the start with the title in its window, or -1 if there is none |
| `HtmlHeadings.HeadingAtIff` | internal/ast/html.go:375-393 | a heading stands at t if and only if `<h` and the level's digit do and the title, in any case, lies within the 4096 bytes from t on |
| `HtmlHeadings.TagsDoNotOverlap` | internal/ast/html.go:386-397 | a heading tag cannot begin inside another, so skipping a whole tag misses nothing |
| `HtmlHeadings.FirstHeadingFound` | internal/ast/html.go:368-399 | the search result is the least heading position |
| `HtmlHeadings.Locate` | internal/ast/html.go:115-146 | each node in document order gets the first place after the previous one that fits; nodes without a title or a place are dropped |
| `HtmlHeadings.TrimEnd` | internal/ast/html.go:209-213 | the range is cut back past its trailing newlines and no further |
| `HtmlHeadings.Pop` | internal/ast/html.go:215-217 | after popping, the level stack lists exactly the still open headings of lower level |
| `HtmlHeadings.Outline` | internal/ast/html.go:193-246 | each heading's section ends at the next heading of its level or higher, and its name follows the open headings |
| `HtmlHeadings.SectionContains` | internal/ast/html.go:200-246 | a heading is open on a later one exactly when its trimmed section contains it |
| `HtmlHeadings.SectionsNest` | internal/ast/html.go:200-246 | two trimmed sections are nested or disjoint |
| `HtmlHeadings.ExtractSections` | internal/ast/html.go:55-246 | starts strictly increase; a section ends with the last byte that is no newline before the next heading of its level or a higher one, or before the end of the file; any two are nested or disjoint; and a name is the slugs of exactly the earlier sections that contain the heading, outermost first, then its own |
| `Hcl.Sanitize` | internal/ast/hcl.go:667-673 | same length, dots become underscores, nothing else changes |
| `Hcl.EmitAll` | internal/ast/hcl.go:230-264 | one level's edges: every recognised name its attributes mention except the block itself, without repeats |
| `Hcl.CollectNested` | internal/ast/hcl.go:185-275 | below a top-level block the edges run from it to exactly the names mentioned at any depth; the list has no repeats if and only if no name is mentioned in two places |
| `Hcl.CollectReferences` | internal/ast/hcl.go:185-371 | the same for a top-level block, edges per assignment for `locals`, none for other blocks, never a self-reference |
| `Hcl.ResourceResolves` | internal/ast/hcl.go:311-371 | `t.n` refers to the resource block labelled t and n by the very name that block has, unless t is a reserved root |
| `Hcl.DataResolves` | internal/ast/hcl.go:311-371 | `data.t.n` refers to the data block labelled t and n |
| `Hcl.VariableResolves` | internal/ast/hcl.go:311-371 | `var.n` refers to the variable block n |
| `Hcl.ModuleResolves` | internal/ast/hcl.go:311-371 | `module.n` refers to the module block n |
| `Hcl.LocalResolves` | internal/ast/hcl.go:311-371 | `local.n` refers to the local n |
| `Hcl.ResolvesNothing` | internal/ast/hcl.go:311-371 | each, count, self, path, terraform and incomplete traversals refer to nothing |
| `Hcl.NoSource` | internal/ast/hcl.go:278-309 | blocks of other types, or without enough labels, are no reference sources |
| `Hcl.RefersForms` | internal/ast/hcl.go:185-275 | a block refers to what its attributes mention and to what the blocks in it refer to |
| `Hcl.MentionHasEdge` | internal/ast/hcl.go:185-275 | a block whose attribute mentions another block has an edge to it, by the other's own name |
| `Hcl.KeysEqual` | internal/ast/hcl.go:522-528 | two block keys are equal if and only if type and sanitized labels are |
| `Hcl.NestedBlockSymbols` | internal/ast/hcl.go:484-520 | every block is named under its parent, with its ordinal when its key repeats, before the blocks inside it |
| `Hcl.SiblingQNIs` | internal/ast/hcl.go:484-528 | a nested block's name is the parent, its type, its labels without dots, and its number if it has one |
| `Hcl.NumberedIff` | internal/ast/hcl.go:484-520 | a block is numbered if and only if another block of the list has its key |
| `Hcl.QNsMembers` | internal/ast/hcl.go:484-520 | the names below a block are those of its blocks and those below each |
| `Hcl.OrdinalsIncrease` | internal/ast/hcl.go:484-520 | blocks of one key are numbered in source order, and numbered at all |
| `Hcl.OrdinalsAreConsecutive` | internal/ast/hcl.go:484-520 | every number below the count of a key is given out |
| `Hcl.SiblingsDistinctIff` | internal/ast/hcl.go:484-528 | sibling names are pairwise distinct if and only if no unnumbered block's labels are a numbered sibling's labels followed by its number |
| `Hcl.SiblingsDistinct` | internal/ast/hcl.go:484-528 | in particular when no last label is a decimal numeral |
| `Hcl.NumberedSiblingCollides` | internal/ast/hcl.go:484-528 | counterexample: two plain blocks and one labelled "0" |
| `Hcl.NamesDistinctIff` | internal/ast/hcl.go:484-528 | all names below a block, at every depth, are distinct if and only if at every level siblings are apart |
| `Hcl.SiblingsApartIff` | internal/ast/hcl.go:484-528 | siblings are apart if and only if neither spells out the other's number in its labels and neither's labels go on with what blocks inside the other spell |
| `Hcl.NestedNameCollides` | internal/ast/hcl.go:484-528 | counterexample: `a { b {} }` next to `a "b" {}` |
| `NameTrees.DistinctIff` | internal/ast/hcl.go:484-520 | in any tree of names of several parts, full names are distinct if and only if at every level siblings have different names and none shadows another |
| `NameTrees.SharedIff` | internal/ast/hcl.go:484-520 | two siblings share a full name, at whatever depths, if and only if they are not apart |
| `Callflow.Store.EdgesFrom` | internal/db/db.go:5272-5312 | the rows of a caller; a failed lookup counts as none |
| `Callflow.Store.EdgesTo` | internal/db/db.go:5277-5312 | the rows of a callee; a failed lookup counts as none |
| `Callflow.EdgeLessIsOrder` | cmd/pinch/callflow.go:223-228 | the sort's comparison is a strict total order, so the order of edges is determined |
| `Callflow.Admit` | cmd/pinch/callflow.go:184-194 | new ends are admitted up to the cap; the flag is raised exactly when one is turned away |
| `Callflow.ExpandNode` | cmd/pinch/callflow.go:179-212 | expanding a node reads its rows in the chosen directions and admits their far ends |
| `Callflow.Round` | cmd/pinch/callflow.go:177-214 | one hop: all rows of the frontier are read, and without truncation all their far ends are in |
| `Callflow.Walk` | cmd/pinch/callflow.go:169-214 | after each hop an untruncated walk holds exactly that ball, and what was read is accounted for |
| `Callflow.WalkIsExact` | cmd/pinch/callflow.go:168-214 | at the end the flag is up if and only if the ball exceeds the cap, also when the frontier ran dry early |
| `Callflow.CollectCallflow` | cmd/pinch/callflow.go:168-230 | the arrows walked are the readable rows from caller to callee for "callees", from callee to caller for "callers", both for "both" and none otherwise; truncated if and only if more than 150 nodes lie within `depth` arrows; at most 150 nodes, all within reach, the whole ball unless truncated; edges sorted and, truncated or not, exactly the rows met within `depth - 1` arrows whose ends are both kept; when not truncated, none of those rows is lost |
| `Callflow.HopsOnStrings` | cmd/pinch/callflow.go:173-174 | which arrows each direction walks |
| `Callflow.MetOnStrings` | cmd/pinch/callflow.go:179-212 | which rows each direction reads at a set of nodes |
| `Graph.BallIsWalks` | cmd/pinch/callflow.go:177-214 | the ball is the set of ends of walks of at most that many arrows |
| `Graph.ConnectedForms` | cmd/pinch/callflow.go:177-214 | walks, hop by hop |
| `Graph.LayerIsDistance` | cmd/closurebench/main.go:225-247 | a node first appears in the ball whose radius is its shortest-walk length |
| `Graph.BallFixpoint` | cmd/closurebench/main.go:229-245 | once a ball stops growing it never grows again, so an empty frontier may end the search |
| `Closure.Table.InsertOrIgnore` | cmd/closurebench/main.go:176-182 | a row whose key is taken is ignored, any other is appended |
| `Closure.Expand` | cmd/closurebench/main.go:232-243 | unseen successors, and only they, get the depth, a place in the next frontier and an inserted row |
| `Closure.Round` | cmd/closurebench/main.go:229-245 | one depth: every seen node carries its distance, and every node at that distance is seen |
| `Closure.Search` | cmd/closurebench/main.go:225-246 | one source adds exactly its rows, each inserted |
| `Closure.SeenIsClosure` | cmd/closurebench/main.go:225-247 | a node is seen at depth d if and only if (source, node, d) belongs to the closure |
| `Closure.BuildClosure` | cmd/closurebench/main.go:225-247 | the rows are exactly the triples with different ends that a walk of that length joins and no shorter one, the length in 1..maxDepth; one row per pair, and as many rows as statements executed, so IGNORE never fires |
| `Closure.DeeperClosureExtends` | cmd/closurebench/main.go:225-247 | the rows for a smaller bound are those for a larger one whose depth fits |
| `EditDistance.Min3` | cmd/pinch/completion.go:110-119 | one of the three, and none is less |
| `EditDistance.NextRow` | cmd/pinch/completion.go:94-106 | the next row of the table follows from the row above |
| `EditDistance.Levenshtein` | cmd/pinch/completion.go:83-108 | the length of a shortest chain of single insertions, deletions and replacements |
| `EditDistance.OneEditForms` | cmd/pinch/completion.go:83-108 | what a single edit can do: take a character out, put one in, or put another in its place, anywhere |
| `EditDistance.DeleteIsLipschitz` | cmd/pinch/completion.go:83-108 | deleting a character anywhere moves the recurrence by at most one |
| `EditDistance.ReplaceIsLipschitz` | cmd/pinch/completion.go:83-108 | replacing a character anywhere moves the recurrence by at most one |
| `EditDistance.ChainsAreNoShorter` | cmd/pinch/completion.go:83-108 | no chain of edits is shorter than the recurrence's value |
| `EditDistance.DistIsReached` | cmd/pinch/completion.go:83-108 | a chain of that length exists |
| `EditDistance.EditDistanceSymmetric` | cmd/pinch/completion.go:83-108 | swapping the arguments leaves the distance alone |
| `EditDistance.EditDistanceTriangle` | cmd/pinch/completion.go:83-108 | a detour through a third string is never shorter |
| `EditDistance.NearestSubcommand` | cmd/pinch/completion.go:71-81 | the earliest candidate of least distance if that is at most 2, else "" |
| `Connections.EdgeLessIsOrder` | cmd/pinch/report.go:895-909 | the five-field comparison is a strict total order |
| `Connections.RankLessIsOrder` | cmd/pinch/report.go:937-952 | count, then package names, is a strict total order |
| `Connections.Collect` | cmd/pinch/report.go:819-836 | each joined pair gets its number of edges and its least edge |
| `Connections.SurprisingConnections` | cmd/pinch/report.go:819-854 | rows come rarest first, then by package names, at most `limit` of them when that is positive; each has two known and different packages, the number of edges between them, the least of those edges and its boundary; an edge between packages without a row belongs to a pair no rarer than any shown, and only when the limit is reached |
| `Connections.ReportMeans` | cmd/pinch/report.go:819-952 | the same of every report |
| `Connections.JoiningForms` | cmd/pinch/report.go:819-836 | which edges count for a pair |
| `Connections.BoundaryIff` | cmd/pinch/report.go:856-880 | when each boundary applies: tests first, then outside packages, cmd with internal, scripts |
| `Connections.CountPermutes` | cmd/pinch/report.go:819-836 | permuted edge lists give the same counts |
| `Connections.ReportIgnoresOrder` | cmd/pinch/report.go:819-952 | permuted edge lists give the same rows |
| `Sorting.SortedUnique` | cmd/pinch/report.go:937-952 | under a strict total order a set has one sorted enumeration, so neither range order nor an unstable sort shows |
| `Text.LessIff` | cmd/pinch/report.go:895-952 | byte order of strings: a proper prefix comes first, and otherwise the first byte that differs decides |
| `HookMerge.Contains` | cmd/pinch/init_hook.go:410-420 | true if and only if the needle occurs |
| `HookMerge.HasPincherHookEntry` | cmd/pinch/init_hook.go:221-239 | true if and only if some entry has a hook whose command names pincher's |
| `HookMerge.UpgradeMatcher` | cmd/pinch/init_hook.go:203-216 | exactly the own entries with an exact earlier managed matcher get the current one; reports whether there was any |
| `HookMerge.UpgradeSettles` | cmd/pinch/init_hook.go:203-216 | an upgrade keeps ownership and leaves nothing to upgrade |
| `HookMerge.SettingsFile.MergePincherHook` | cmd/pinch/init_hook.go:105-181 | the merged settings and the reported action, for every tree, malformed ones included |
| `HookMerge.FreshInstall` | cmd/pinch/init_hook.go:105-181 | what a merge writes into empty settings, field by field |
| `HookMerge.OwnEntryIff` | cmd/pinch/init_hook.go:221-239 | an entry is the installer's own if one of its hooks runs a command that contains `pincher hook-check` |
| `HookMerge.UpgradedIs` | cmd/pinch/init_hook.go:183-216 | which matchers are brought up to date, and that nothing else of the entry changes |
| `HookMerge.LabelIff` | cmd/pinch/init_hook.go:105-181 | when each action is reported |
| `HookMerge.SecondMergeIsNoop` | cmd/pinch/init_hook.go:105-239 | a second merge reports noop and changes nothing if and only if the command names the hook or both lists already had an own entry |
| `HookMerge.ForeignCommandRepeats` | cmd/pinch/init_hook.go:105-181 | counterexample: a command that does not name the hook is added again by every merge |
| `HookMerge.InstallTwice` | cmd/pinch/init_hook.go:79-181 | running the installer again is a no-op for every settings tree and any data directories |
| `HookMerge.MergeKeepsIff` | cmd/pinch/init_hook.go:105-181 | every other key and event stays; PreToolUse entries stay in place, either upgraded where outdated or followed by exactly the new entry; PreCompact entries stay as they are, at most followed by exactly the new one; a list that was absent holds just the new entry; all this if and only if what sits at those places is well typed |
| `HookMerge.UntypedHooksLost` | cmd/pinch/init_hook.go:105-181 | counterexample: hooks that are a text give way to the two new lists |
| `SetupWizard.OptionListed` | cmd/pinch/setup_model.go:108-120 | an option is listed exactly when it applies |
| `SetupWizard.StartIs` | cmd/pinch/setup_model.go:66-83 | exactly the detected targets start selected, with the hook option on |
| `SetupWizard.ArrowsMove` | cmd/pinch/setup_model.go:150-165 | the arrows move the cursor by one row and stop at the ends |
| `SetupWizard.SpaceOnHosts` | cmd/pinch/setup_model.go:167-188 | Space flips the target under the cursor and no other |
| `SetupWizard.BulkOnHosts` | cmd/pinch/setup_model.go:190-206 | what the keys for all, detected and none select |
| `SetupWizard.EnterOnHosts` | cmd/pinch/setup_model.go:213-233 | Enter needs a selected target and skips the options when none applies |
| `SetupWizard.SpaceOnOptions` | cmd/pinch/setup_model.go:175-187 | Space flips the option under the cursor, by the order in which those that apply are listed, and no other |
| `SetupWizard.MovesBetweenScreens` | cmd/pinch/setup_model.go:213-249 | where Enter and Back lead from the later screens |
| `SetupWizard.EnterOnConfirm` | cmd/pinch/setup.go:206-260 | one plan is applied: the selected targets, the options as they stand, and the hook only with claude selected |
| `SetupWizard.OtherKeys` | cmd/pinch/setup.go:170-215 | other keys change nothing |
| `SetupWizard.RunForms` | cmd/pinch/setup.go:140-168 | which keys end a run, and how |
| `SetupWizard.StepKeeps` | cmd/pinch/setup.go:140-215 | every key keeps the invariant, and only a stopping key cancels |
| `SetupWizard.EveryRunKeeps` | cmd/pinch/setup.go:140-215 | every key sequence keeps it: cursor on a row, past the hosts screen only with a target, on the options screen only with an option, applied exactly when done and with the plan the selection spells out |
| `SetupWizard.WizardIsSafe` | cmd/pinch/setup.go:140-215 | from the start, apply runs at most once, a cancelled run applied nothing, an applied plan has a target, git hooks only inside a repository and the hook only with claude selected |
| `SetupWizard.BackUndoesAdvance` | cmd/pinch/setup_model.go:213-248 | back after a screen-changing advance restores the whole state up to the cursor |
| `SetupWizard.SetupModel.SomeSelected` | cmd/pinch/setup_model.go:86-94 | whether any listed target is selected |
| `SetupWizard.SetupModel.MoveBy` | cmd/pinch/setup_model.go:150-165 | the cursor moves and is clamped to the rows |
| `SetupWizard.SetupModel.ToggleAtCursor` | cmd/pinch/setup_model.go:167-188 | flips the target or option under the cursor and nothing else |
| `SetupWizard.SetupModel.CheckTargets` | cmd/pinch/setup_model.go:190-200 | marks every listed target as chosen or not |
| `SetupWizard.SetupModel.CheckNone` | cmd/pinch/setup_model.go:202-206 | unmarks every known name |
| `SetupWizard.SetupModel.GoForward` | cmd/pinch/setup_model.go:213-233 | the forward transition, and whether to apply |
| `SetupWizard.SetupModel.GoBack` | cmd/pinch/setup_model.go:235-249 | the backward transition, skipping an empty options screen |
| `SetupWizard.SetupModel.SelectedTargets` | cmd/pinch/setup_model.go:251-259 | the selected targets in list order |
| `SetupWizard.SetupModel.HandleHosts` | cmd/pinch/setup.go:170-187 | a key on the hosts screen |
| `SetupWizard.SetupModel.HandleOptions` | cmd/pinch/setup.go:189-204 | a key on the options screen |
| `SetupWizard.SetupModel.HandleConfirm` | cmd/pinch/setup.go:206-215 | a key on the confirm screen; Enter applies the plan and shows the done screen |
| `SetupWizard.SetupModel.RunSetupLoop` | cmd/pinch/setup.go:140-168 | the loop ends in the state the keys lead to, and keeps the invariant |
| `HookAdvisories.HookStore.CountPriorReads` | cmd/pinch/hook_check_advise_index.go:131-140 | the number of logged code-file paths under the root |
| `HookAdvisories.HookStore.DecideRead` | cmd/pinch/hook_check_advise_index.go:108-160 | the chain of tests, the counting loop included |
| `HookAdvisories.HookStore.HandleEvent` | cmd/pinch/hook_check.go:770-784 | decides on the log, appends one row, and always continues |
| `HookAdvisories.PlainDecisions` | cmd/pinch/hook_check.go:270-430 | what is decided where no one-time advisory is at stake |
| `HookAdvisories.AdvisoryDecisions` | cmd/pinch/hook_check_advise_index.go:108-160 | the index advisory names the repository, the route advisory the session, and anything else passes |
| `HookAdvisories.DecidesIndex` | cmd/pinch/hook_check_advise_index.go:108-160 | when a decision is the index advisory of a session and root |
| `HookAdvisories.DecidesRoute` | cmd/pinch/hook_check_advise_route.go:87-117 | when a decision is the route advisory |
| `HookAdvisories.RowForms` | cmd/pinch/hook_check.go:770-784 | what is logged for an event |
| `Repositories.GitRepoRoot` | cmd/pinch/hook_check_advise_index.go:63-76 | the deepest directory around the cleaned file path that holds a .git, if any does |
| `Repositories.CleanedForms` | cmd/pinch/hook_check_advise_index.go:63-76 | cleaning a path, element by element |
| `Repositories.CountedIff` | internal/db/db.go:7628-7653 | the log's prefix test puts a path below a directory if and only if the directory is among the names the path starts with, as spelled |
| `Repositories.RightlyCountedIff` | internal/db/db.go:7628-7653 | the test puts a path below exactly the directories its file is in, if and only if the leading names of its directory, as spelled, are its cleaned directory |
| `Repositories.CleanIsRightlyCounted` | internal/db/db.go:7628-7653 | so it does for every clean path |
| `Repositories.CountedBelowRoot` | internal/db/db.go:7628-7653 | below the root of the file system the test counts only paths that start with two slashes |
| `Repositories.DetourMiscounted` | internal/db/db.go:7628-7653 | counterexample: /b/../a/x.go is counted under /b, where its file is not, and not under /a, where it is |
| `Repositories.ElementsSpell` | cmd/pinch/hook_check_advise_index.go:63-76 | the elements of an absolute path spell it |
| `Repositories.SpelledOnce` | cmd/pinch/hook_check_advise_index.go:63-76 | and no other elements do |
| `HookAdvisories.RowAt` | cmd/pinch/hook_check.go:770-784 | row n records what was decided for event n on the log before it |
| `HookAdvisories.LoggedTasks` | internal/db/db.go:7687-7700 | the logged count of Task rows is the session's number of Task events |
| `HookAdvisories.RouteAdvisoryExact` | cmd/pinch/hook_check_advise_route.go:87-117 | over every event sequence, the route advisory fires at an event if and only if it is its session's first that is at least the third Task with a router installed |
| `HookAdvisories.RouteAdvisedOnce` | internal/db/db.go:7709-7723 | no session gets it twice |
| `HookAdvisories.IndexAdvisedNotBeforeThree` | cmd/pinch/hook_check_advise_index.go:131-140 | an index advisory comes at a code-file Read under its root that is at least the session's third |
| `HookAdvisories.IndexAdvisedOnce` | cmd/pinch/hook_check_advise_index.go:128-130 | no session gets it twice for one root |
| `HookAdvisories.LoggedReadsAgree` | internal/db/db.go:7628-7653 | over every event sequence, until a root is advised, the log's counter agrees up to the threshold with the Reads under the root that were not answered with the advisory of a repository outside it |
| `HookAdvisories.AgreeStep` | cmd/pinch/hook_check_advise_index.go:145-159 | one event moves both counters alike, unless the log's already reached two |
| `HookAdvisories.IndexHistory` | internal/db/db.go:7661-7675 | as long as every advisory fired when it was due, the log shows one for a session and root if and only if one was due before |
| `HookAdvisories.ExactIff` | cmd/pinch/hook_check_advise_index.go:108-160 | over every event sequence, the index advisory of a session and root fires at the first code-file Read in an advisable repository that is at least the third under its root, and at no other event, if and only if two of the Reads before that one were not answered with an outside repository's advisory |
| `HookAdvisories.ExactUnlessDisplaced` | cmd/pinch/hook_check_advise_index.go:108-160 | so in particular when no Read under the root was answered that way |
| `HookAdvisories.RepositoryBelow` | cmd/pinch/hook_check_advise_index.go:63-76 | a directory with a .git contains the repository of every file in it |
| `HookAdvisories.AdvisedIsRepository` | cmd/pinch/hook_check_advise_index.go:108-160 | whatever happens on disk and however paths are spelled, a root that holds no .git at the time is never advised |
| `HookAdvisories.SteadyIsExact` | cmd/pinch/hook_check_advise_index.go:108-160 | the index advisory of a session and directory is exact whenever the Reads counted under it are of files in it and find a .git there, whatever else is read or happens on disk |
| `HookAdvisories.IndexAdvisoryExact` | cmd/pinch/hook_check_advise_index.go:108-160 | so it is for every session and root when no repository appears or vanishes and every path is rightly counted |
| `HookAdvisories.NewRepositoryDelays` | cmd/pinch/hook_check_advise_index.go:145-159 | counterexample: a repository that appears in the middle of a session is not advised at its third Read |
| `HookAdvisories.DetourAdvises` | cmd/pinch/hook_check_advise_index.go:131-140 | counterexample: after two Reads of /b/../a/x.go, whose file is in /a, the first Read of a file in /b gets the advisory of /b |

## Left out

- Input and output: SQLite, files, HTTP, processes, git, raw terminal keys and rendering. What they return is a parameter.
- Regular expressions, go/parser, hclsyntax and x/net/html. Lines come classified, trees come parsed.
- The other block finders (`findIndentBlock`, `findEndKeywordBlock`) and delimiters inside strings or comments, which the brace scanner does not treat specially either.
- FunctionScopes.Extract: does not emit call edges or imports, nor a symbol's byte range, signature and complexity; which pattern a line matches and where its block ends are given.
- GoReads.ExtractGoReads: the pre-pass that collects the types of locals, and the table of predeclared names, are parameters.
- HtmlHeadings.ExtractSections: the slug function, the title element and link imports are not modelled; the slug function is a parameter.
- Hcl.NestedBlockSymbols: yields qualified names only. Display names, ranges and signatures are copied from the parsed block and no other result depends on them; the symbols of `locals` and tfvars files are one for each assignment, without nesting or numbering.
- Connections.SurprisingConnections: the path tests, and how an id's package is found, are parameters; the reason and advice texts are functions of the boundary. Confidences are real numbers, so not-a-number is excluded.
- HookMerge.SettingsFile.MergePincherHook: nested maps and lists are values, so an alias a caller holds into the tree before the call is not seen to change. `mergeGooseHook`, which has the same shape with one list, is not modelled.
- SetupWizard.SetupModel.HandleConfirm: applying records the plan it would carry out; its file effects and result texts are not modelled.
- HookAdvisories.HookStore.HandleEvent: lost or concurrent log writes and failed queries, which the code declares best effort; whether a Read is exempt or indexed, whether a redirect applies, and bloat traps are part of the event.
- HookAdvisories.IndexAdvisoryExact: speaks of a file system on which no repository appears or vanishes and of rightly counted paths; `SteadyIsExact` asks this of one directory only, and `ExactIff` gives the condition for every session.
- Repositories.GitRepoRoot: takes absolute paths, as the name of its parameter says; for a relative one the search would end at the working directory. Links are not followed, as in the code.
- Floating-point scoring (entropy, savings, composed scores), lookup tables, statistics and the remaining command-line wrappers.
