/** Headings to nested sections: internal/ast/html.go. The parser's heading nodes are given in document
    order; the byte search that locates them and the level stack that names them are modelled. */
module HtmlHeadings {
  import Text

  type Level = n: int | 1 <= n <= 6 witness 1

  // ---------- Case-insensitive byte search ----------

  function Fold(c: char): char {
    if 'A' <= c <= 'Z' then (c as int + 32) as char else c
  }

  /** Bytes are alike when they are equal or the two cases of one ASCII letter. */
  lemma {:induction false} FoldIff(c: char, d: char)
    ensures Fold(c) == Fold(d) <==>
            || c == d
            || ('A' <= c <= 'Z' && d as int == c as int + 32)
            || ('A' <= d <= 'Z' && c as int == d as int + 32)
  {
  }

  ghost predicate MatchesAt(haystack: string, needle: string, i: int) {
    0 <= i && i + |needle| <= |haystack| && forall j | 0 <= j < |needle| :: Fold(haystack[i + j]) == Fold(needle[j])
  }

  /** html.go `bytesIndexFold`: the first match, or -1. */
  method IndexFold(haystack: string, needle: string) returns (at: int)
    ensures at == -1 || MatchesAt(haystack, needle, at)
    ensures forall i | MatchesAt(haystack, needle, i) :: at != -1 && at <= i
  {
    if |needle| == 0 {
      return 0;
    }
    if |needle| > |haystack| {
      return -1;
    }
    var last := |haystack| - |needle|;
    for i := 0 to last + 1
      invariant forall k | 0 <= k < i :: !MatchesAt(haystack, needle, k)
    {
      var matched := true;
      for j := 0 to |needle|
        invariant matched ==> forall k | 0 <= k < j :: Fold(haystack[i + k]) == Fold(needle[k])
        invariant !matched ==> !MatchesAt(haystack, needle, i)
      {
        if Fold(haystack[i + j]) != Fold(needle[j]) {
          matched := false;
          break;
        }
      }
      if matched {
        return i;
      }
    }
    return -1;
  }

  // ---------- Locating a heading ----------

  const WINDOW := 4096

  function Tag(level: Level): string { ['<', 'h', Text.Digit(level)] }

  function WindowAt(source: string, t: nat): string
    requires t <= |source|
  {
    source[t..if t + WINDOW > |source| then |source| else t + WINDOW]
  }

  /** A tag of this level opens at t and the title occurs within the window that starts there. */
  ghost predicate HeadingAt(source: string, level: Level, title: string, t: int) {
    MatchesAt(source, Tag(level), t) && exists k :: MatchesAt(WindowAt(source, t), title, k)
  }

  /** On bytes: at t stands `<h`, in either case, and the digit of the level, and within 4096 bytes from t on the title
      in any case. */
  lemma {:induction false} HeadingAtIff(source: string, level: Level, title: string, t: nat)
    ensures HeadingAt(source, level, title, t) <==>
            && t + 3 <= |source| && source[t] == '<' && (source[t + 1] == 'h' || source[t + 1] == 'H')
            && source[t + 2] as int == '0' as int + level
            && exists k :: t <= k && k + |title| <= |source| && k + |title| <= t + 4096 && TitleAt(source, title, k)
  {
    var tag := Tag(level);
    assert MatchesAt(source, tag, t) <==>
           && t + 3 <= |source| && Fold(source[t]) == Fold(tag[0]) && Fold(source[t + 1]) == Fold(tag[1])
           && Fold(source[t + 2]) == Fold(tag[2]) by {
      if MatchesAt(source, tag, t) {
        assert Fold(source[t + 0]) == Fold(tag[0]);
      }
    }
    if t + 3 <= |source| {
      FoldIff(source[t], '<');
      FoldIff(source[t + 1], 'h');
      FoldIff(source[t + 2], tag[2]);
      WindowMatches(source, title, t);
    }
  }

  /** The title stands at k, up to the case of ASCII letters. */
  ghost predicate TitleAt(source: string, title: string, k: int) {
    && 0 <= k && k + |title| <= |source|
    && forall j | 0 <= j < |title| ::
         var c, d := source[k + j], title[j];
         || c == d
         || ('A' <= c <= 'Z' && d as int == c as int + 32)
         || ('A' <= d <= 'Z' && c as int == d as int + 32)
  }

  lemma {:induction false} WindowMatches(source: string, title: string, t: nat)
    requires t <= |source|
    ensures (exists k :: MatchesAt(WindowAt(source, t), title, k)) <==>
            exists k :: t <= k && k + |title| <= |source| && k + |title| <= t + 4096 && TitleAt(source, title, k)
  {
    forall k: nat ensures MatchesAt(WindowAt(source, t), title, k) <==>
                          t + k + |title| <= |source| && k + |title| <= 4096 && TitleAt(source, title, t + k) {
      WindowMatch(source, title, t, k);
    }
    if k :| t <= k && k + |title| <= |source| && k + |title| <= t + 4096 && TitleAt(source, title, k) {
      assert MatchesAt(WindowAt(source, t), title, k - t);
    }
  }

  lemma {:induction false} WindowMatch(source: string, title: string, t: nat, k: nat)
    requires t <= |source|
    ensures MatchesAt(WindowAt(source, t), title, k) <==>
            t + k + |title| <= |source| && k + |title| <= 4096 && TitleAt(source, title, t + k)
  {
    var w := WindowAt(source, t);
    if k + |title| <= |w| {
      forall j | 0 <= j < |title|
        ensures Fold(w[k + j]) == Fold(title[j]) <==>
                var c, d := source[t + k + j], title[j];
                || c == d
                || ('A' <= c <= 'Z' && d as int == c as int + 32)
                || ('A' <= d <= 'Z' && c as int == d as int + 32)
      {
        FoldIff(source[t + k + j], title[j]);
      }
    }
  }

  /** html.go `bytesFindHeadingAfter`: the first such place at or after start, or -1. Skipping a whole tag
      after a miss loses nothing, because a tag cannot begin inside another. */
  method FindHeadingAfter(source: string, level: Level, title: string, start: nat) returns (at: int)
    ensures at == -1 || (start <= at && HeadingAt(source, level, title, at))
    ensures forall t | start <= t && HeadingAt(source, level, title, t) :: at != -1 && at <= t
  {
    if start >= |source| {
      return -1;
    }
    var tag := Tag(level);
    var off := start;
    while true
      invariant start <= off < |source|
      invariant forall t | start <= t < off :: !HeadingAt(source, level, title, t)
      decreases |source| - off
    {
      var idx := IndexFold(source[off..], tag);
      SuffixMatches(source, tag, off);
      if idx < 0 {
        return -1;
      }
      var tagStart := off + idx;
      var found := IndexFold(WindowAt(source, tagStart), title);
      if found >= 0 {
        return tagStart;
      }
      TagsDoNotOverlap(source, level, tagStart);
      off := tagStart + |tag|;
      if off >= |source| {
        return -1;
      }
    }
  }

  lemma {:induction false} SuffixMatches(source: string, needle: string, off: nat)
    requires off <= |source|
    ensures forall t | off <= t :: MatchesAt(source, needle, t) <==> MatchesAt(source[off..], needle, t - off)
  {
    forall t | off <= t
      ensures MatchesAt(source, needle, t) <==> MatchesAt(source[off..], needle, t - off)
    {
      assert forall k | 0 <= k < |source| - off :: source[off..][k] == source[off + k];
    }
  }

  lemma {:induction false} TagsDoNotOverlap(source: string, level: Level, t: int)
    requires MatchesAt(source, Tag(level), t)
    ensures !MatchesAt(source, Tag(level), t + 1) && !MatchesAt(source, Tag(level), t + 2)
    ensures source[t] == '<'
  {
    var tag := Tag(level);
    assert Fold(source[t + 0]) == Fold(tag[0]) && Fold(source[t + 1]) == Fold(tag[1]) &&
           Fold(source[t + 2]) == Fold(tag[2]);
    MatchBeginsAlike(source, tag, t + 1);
    MatchBeginsAlike(source, tag, t + 2);
  }

  lemma {:induction false} MatchBeginsAlike(haystack: string, needle: string, i: int)
    requires needle != ""
    ensures MatchesAt(haystack, needle, i) ==> Fold(haystack[i]) == Fold(needle[0])
  {
    assert MatchesAt(haystack, needle, i) ==> haystack[i + 0] == haystack[i];
  }

  datatype Node = Node(level: Level, title: string)
  datatype Heading = Heading(level: Level, title: string, start: nat)

  /** Headings in document order, each at a tag. */
  ghost predicate Anchored(source: string, headings: seq<Heading>) {
    && (forall i | 0 <= i < |headings| :: headings[i].start < |source| && source[headings[i].start] == '<')
    && (forall i, j | 0 <= i < j < |headings| :: headings[i].start < headings[j].start)
  }

  /** The first place at or after `from` where the heading fits, or -1. */
  ghost function FirstHeading(source: string, level: Level, title: string, from: nat): int
    decreases |source| - from
  {
    if from >= |source| then -1
    else if HeadingAt(source, level, title, from) then from
    else FirstHeading(source, level, title, from + 1)
  }

  lemma {:induction false} FirstHeadingFound(source: string, level: Level, title: string, from: nat, at: int)
    requires at == -1 || (from <= at && HeadingAt(source, level, title, at))
    requires forall t | from <= t && HeadingAt(source, level, title, t) :: at != -1 && at <= t
    ensures at == FirstHeading(source, level, title, from)
    decreases |source| - from
  {
    if from < |source| && !HeadingAt(source, level, title, from) {
      FirstHeadingFound(source, level, title, from + 1, at);
    }
  }

  /** Which nodes become headings, and where: each is searched for past the one before it, and a node
      without a title or without a place in the source is dropped. */
  ghost function Placed(source: string, nodes: seq<Node>, from: nat): seq<Heading>
    decreases |nodes|
  {
    if nodes == [] then []
    else
      var n := nodes[0];
      var at := FirstHeading(source, n.level, n.title, from);
      if n.title == "" || at < 0 then Placed(source, nodes[1..], from)
      else [Heading(n.level, n.title, at)] + Placed(source, nodes[1..], at + 1)
  }

  /** The walk's heading case. */
  method Locate(source: string, nodes: seq<Node>) returns (headings: seq<Heading>)
    ensures headings == Placed(source, nodes, 0)
    ensures Anchored(source, headings)
  {
    headings := [];
    var searchFrom := 0;
    for n := 0 to |nodes|
      invariant headings + Placed(source, nodes[n..], searchFrom) == Placed(source, nodes, 0)
      invariant Anchored(source, headings)
      invariant forall i | 0 <= i < |headings| :: headings[i].start < searchFrom
    {
      var level, title := nodes[n].level, nodes[n].title;
      PlacedStep(headings, source, nodes, n, searchFrom);
      if title != "" {
        var off := Search(source, level, title, searchFrom);
        if off >= 0 {
          if off >= searchFrom {
            searchFrom := off + 1;
          }
          headings := headings + [Heading(level, title, off)];
        }
      }
    }
  }

  method Search(source: string, level: Level, title: string, from: nat) returns (off: int)
    ensures off == FirstHeading(source, level, title, from)
    ensures off == -1 || (from <= off < |source| && source[off] == '<')
  {
    off := FindHeadingAfter(source, level, title, from);
    FirstHeadingFound(source, level, title, from, off);
    if off >= 0 {
      TagsDoNotOverlap(source, level, off);
    }
  }

  lemma {:induction false} PlacedStep(done: seq<Heading>, source: string, nodes: seq<Node>, n: nat, from: nat)
    requires n < |nodes|
    ensures var at := FirstHeading(source, nodes[n].level, nodes[n].title, from);
            if nodes[n].title == "" || at < 0 then
              done + Placed(source, nodes[n..], from) == done + Placed(source, nodes[n + 1..], from)
            else
              done + Placed(source, nodes[n..], from)
              == done + [Heading(nodes[n].level, nodes[n].title, at)] + Placed(source, nodes[n + 1..], at + 1)
  {
    assert nodes[n..][0] == nodes[n] && nodes[n..][1..] == nodes[n + 1..];
  }

  // ---------- Sections ----------

  datatype Section = Section(title: string, start: nat, end: nat, qn: string)

  /** The first heading from j on that is not deeper than heading i, or the number of headings. */
  function Closer(headings: seq<Heading>, i: nat, j: nat): (c: nat)
    requires i < j <= |headings|
    ensures j <= c <= |headings|
    ensures c < |headings| ==> headings[c].level <= headings[i].level
    ensures forall k | j <= k < c :: headings[k].level > headings[i].level
    decreases |headings| - j
  {
    if j == |headings| || headings[j].level <= headings[i].level then j else Closer(headings, i, j + 1)
  }

  /** Where section i ends before trimming. */
  function RawEnd(headings: seq<Heading>, size: nat, i: nat): nat
    requires i < |headings|
  {
    var c := Closer(headings, i, i + 1);
    if c < |headings| then headings[c].start else size
  }

  predicate IsNewline(c: char) { c == '\n' || c == '\r' }

  /** end, less the newlines before it, but not before start. */
  ghost predicate Trimmed(source: string, start: nat, raw: nat, end: nat) {
    && start <= end <= raw <= |source|
    && (forall k | end <= k < raw :: IsNewline(source[k]))
    && (end > start ==> !IsNewline(source[end - 1]))
  }

  /** Every heading in between is deeper than heading j. */
  ghost predicate OpenAt(headings: seq<Heading>, j: int, i: int) {
    0 <= j < i <= |headings| && forall k | j < k < i :: headings[k].level > headings[j].level
  }

  /** idx lists, in order, exactly the headings still open when heading i is met. */
  ghost predicate ListsOpen(headings: seq<Heading>, i: nat, idx: seq<nat>) {
    && (forall a, b | 0 <= a < b < |idx| :: idx[a] < idx[b])
    && (forall j :: j in idx <==> OpenAt(headings, j, i))
  }

  datatype Frame = Frame(level: Level, slug: string)

  ghost predicate StackOf(headings: seq<Heading>, slug: string -> string, idx: seq<nat>, stack: seq<Frame>) {
    && |stack| == |idx|
    && forall a | 0 <= a < |idx| ::
         idx[a] < |headings| && stack[a] == Frame(headings[idx[a]].level, slug(headings[idx[a]].title))
  }

  function Slugs(stack: seq<Frame>): seq<string> {
    seq(|stack|, a requires 0 <= a < |stack| => stack[a].slug)
  }

  function SlugsOf(headings: seq<Heading>, slug: string -> string, idx: seq<nat>): seq<string>
    requires forall a | 0 <= a < |idx| :: idx[a] < |headings|
  {
    seq(|idx|, a requires 0 <= a < |idx| => slug(headings[idx[a]].title))
  }

  method FindRawEnd(headings: seq<Heading>, size: nat, i: nat) returns (end: nat)
    requires i < |headings|
    ensures end == RawEnd(headings, size, i)
  {
    end := size;
    for j := i + 1 to |headings|
      invariant end == size && Closer(headings, i, j) == Closer(headings, i, i + 1)
    {
      if headings[j].level <= headings[i].level {
        end := headings[j].start;
        break;
      }
    }
  }

  method TrimEnd(source: string, start: nat, raw: nat) returns (end: nat)
    requires start <= raw <= |source|
    ensures Trimmed(source, start, raw, end)
  {
    end := raw;
    while end > start && IsNewline(source[end - 1])
      invariant start <= end <= raw && forall k | end <= k < raw :: IsNewline(source[k])
    {
      end := end - 1;
    }
  }

  /** Pop the frames that are not shallower than heading i. */
  method Pop(headings: seq<Heading>, slug: string -> string, i: nat, stack: seq<Frame>, ghost idx: seq<nat>)
    returns (stack': seq<Frame>, ghost idx': seq<nat>)
    requires i < |headings| && ListsOpen(headings, i, idx) && StackOf(headings, slug, idx, stack)
    ensures StackOf(headings, slug, idx', stack')
    ensures forall a, b | 0 <= a < b < |idx'| :: idx'[a] < idx'[b]
    ensures forall j :: j in idx' <==> j < i && OpenAt(headings, j, i + 1)
  {
    stack' := stack;
    while |stack'| > 0 && stack'[|stack'| - 1].level >= headings[i].level
      invariant |stack'| <= |stack| && stack' == stack[..|stack'|]
      invariant forall a | |stack'| <= a < |idx| :: headings[idx[a]].level >= headings[i].level
    {
      stack' := stack'[..|stack'| - 1];
    }
    idx' := idx[..|stack'|];
    PoppedOpen(headings, i, idx, |stack'|);
  }

  lemma {:induction false} PoppedOpen(headings: seq<Heading>, i: nat, idx: seq<nat>, n: nat)
    requires i < |headings| && ListsOpen(headings, i, idx) && n <= |idx|
    requires forall a | n <= a < |idx| :: idx[a] < |headings| && headings[idx[a]].level >= headings[i].level
    requires n > 0 ==> idx[n - 1] < |headings| && headings[idx[n - 1]].level < headings[i].level
    ensures forall j :: j in idx[..n] <==> j < i && OpenAt(headings, j, i + 1)
  {
    forall j | j in idx[..n] ensures j < i && OpenAt(headings, j, i + 1) {
      var a :| 0 <= a < n && idx[a] == j;
      assert idx[a] in idx && idx[n - 1] in idx;
      assert OpenAt(headings, j, i) && OpenAt(headings, idx[n - 1], i);
    }
    forall j | j < i && OpenAt(headings, j, i + 1) ensures j in idx[..n] {
      assert OpenAt(headings, j, i);
      var a :| 0 <= a < |idx| && idx[a] == j;
      assert headings[j].level < headings[i].level;
      assert a < n;
    }
  }

  /** Section i as the hierarchy loop emits it: chain lists the headings it is nested under. */
  ghost predicate Emitted(source: string, headings: seq<Heading>, slug: string -> string, i: nat, s: Section,
                          chain: seq<nat>)
    requires i < |headings|
  {
    && s.title == headings[i].title && s.start == headings[i].start
    && Trimmed(source, s.start, RawEnd(headings, |source|, i), s.end)
    && (forall a, b | 0 <= a < b < |chain| :: chain[a] < chain[b])
    && (forall j :: j in chain <==> j < i && OpenAt(headings, j, i + 1))
    && (forall a | 0 <= a < |chain| :: chain[a] < |headings|)
    && s.qn == Text.Join(SlugsOf(headings, slug, chain) + [slug(s.title)])
  }

  /** The hierarchy loop of html.go `Extract`. */
  method Outline(source: string, headings: seq<Heading>, slug: string -> string)
    returns (sections: seq<Section>, ghost chains: seq<seq<nat>>)
    requires Anchored(source, headings)
    ensures |sections| == |chains| == |headings|
    ensures forall i | 0 <= i < |headings| :: Emitted(source, headings, slug, i, sections[i], chains[i])
  {
    sections, chains := [], [];
    var stack: seq<Frame> := [];
    ghost var idx: seq<nat> := [];
    for i := 0 to |headings|
      invariant |sections| == |chains| == i
      invariant forall k | 0 <= k < i :: Emitted(source, headings, slug, k, sections[k], chains[k])
      invariant ListsOpen(headings, i, idx) && StackOf(headings, slug, idx, stack)
    {
      var h := headings[i];
      var raw := FindRawEnd(headings, |source|, i);
      RawEndInFile(source, headings, i);
      var end := TrimEnd(source, h.start, raw);
      stack, idx := Pop(headings, slug, i, stack, idx);
      var path := Text.Join(Slugs(stack) + [slug(h.title)]);
      assert Slugs(stack) == SlugsOf(headings, slug, idx);
      sections := sections + [Section(h.title, h.start, end, path)];
      chains := chains + [idx];
      stack := stack + [Frame(h.level, slug(h.title))];
      PushedOpen(headings, i, idx);
      idx := idx + [i];
    }
  }

  lemma {:induction false} PushedOpen(headings: seq<Heading>, i: nat, idx: seq<nat>)
    requires i < |headings|
    requires forall a, b | 0 <= a < b < |idx| :: idx[a] < idx[b]
    requires forall j :: j in idx <==> j < i && OpenAt(headings, j, i + 1)
    ensures ListsOpen(headings, i + 1, idx + [i])
  {
    assert forall a | 0 <= a < |idx| :: idx[a] in idx;
    assert OpenAt(headings, i, i + 1);
  }

  // ---------- What the emitted ranges say ----------

  lemma {:induction false} RawEndInFile(source: string, headings: seq<Heading>, i: nat)
    requires Anchored(source, headings) && i < |headings|
    ensures headings[i].start < RawEnd(headings, |source|, i) <= |source|
  {
  }

  /** Trimming newlines never crosses a byte that is not one. */
  lemma {:induction false} TrimKeepsInk(source: string, start: nat, raw: nat, end: nat, x: nat)
    requires Trimmed(source, start, raw, end) && x < |source| && !IsNewline(source[x])
    ensures x < raw <==> x < end
  {
  }

  /** A section contains the start of exactly the later headings nested under it. */
  lemma {:induction false} SectionContains(source: string, headings: seq<Heading>, j: nat, i: nat, end: nat)
    requires Anchored(source, headings) && j < i < |headings|
    requires Trimmed(source, headings[j].start, RawEnd(headings, |source|, j), end)
    ensures headings[i].start < end <==> OpenAt(headings, j, i + 1)
  {
    var c := Closer(headings, j, j + 1);
    assert OpenAt(headings, j, i + 1) <==> i < c;
    TrimKeepsInk(source, headings[j].start, RawEnd(headings, |source|, j), end, headings[i].start);
  }

  ghost predicate Contains(outer: Section, x: nat) { outer.start <= x < outer.end }

  lemma {:induction false} SectionsNest(source: string, headings: seq<Heading>, j: nat, i: nat, endJ: nat, endI: nat)
    requires Anchored(source, headings) && j < i < |headings|
    requires Trimmed(source, headings[j].start, RawEnd(headings, |source|, j), endJ)
    requires Trimmed(source, headings[i].start, RawEnd(headings, |source|, i), endI)
    ensures endJ <= headings[i].start || endI <= endJ
  {
    SectionContains(source, headings, j, i, endJ);
    if OpenAt(headings, j, i + 1) {
      RawEndsNest(source, headings, j, i);
      RawEndInFile(source, headings, i);
      TrimKeepsInk(source, headings[i].start, RawEnd(headings, |source|, i), endI, headings[i].start);
      TrimKeepsInk(source, headings[j].start, RawEnd(headings, |source|, j), endJ, endI - 1);
    }
  }

  lemma {:induction false} RawEndsNest(source: string, headings: seq<Heading>, j: nat, i: nat)
    requires Anchored(source, headings) && j < i < |headings| && OpenAt(headings, j, i + 1)
    ensures RawEnd(headings, |source|, i) <= RawEnd(headings, |source|, j)
  {
    var ci, cj := Closer(headings, i, i + 1), Closer(headings, j, j + 1);
    assert headings[j].level < headings[i].level;
    assert cj > i;
    assert ci <= cj;
    RawEndInFile(source, headings, i);
  }

  /** The heading part of html.go `Extract`: every section is a non-empty range that starts at its heading,
      ranges nest or are disjoint, and a section's name is the slugs of exactly the earlier sections whose
      range contains it, outermost first, then its own. */
  method ExtractSections(source: string, nodes: seq<Node>, slug: string -> string)
    returns (sections: seq<Section>, ghost chains: seq<seq<nat>>)
    ensures |chains| == |sections|
    ensures forall i, j | 0 <= i < j < |sections| :: sections[i].start < sections[j].start
    ensures forall i | 0 <= i < |sections| :: sections[i].start < sections[i].end <= |source|
    ensures forall j, i | 0 <= j < i < |sections| ::
              sections[j].end <= sections[i].start || sections[i].end <= sections[j].end
    ensures forall i | 0 <= i < |sections| :: NamedByContainment(sections, slug, i, chains[i])
    ensures var headings := Placed(source, nodes, 0);
            && |headings| == |sections|
            && forall i | 0 <= i < |sections| ::
                 && sections[i].title == headings[i].title && sections[i].start == headings[i].start
                 && EndsAt(source, headings, i, sections[i].end)
  {
    var headings := Locate(source, nodes);
    sections, chains := Outline(source, headings, slug);
    forall i | 0 <= i < |sections|
      ensures sections[i].start < sections[i].end <= |source|
      ensures NamedByContainment(sections, slug, i, chains[i])
      ensures EndsAt(source, headings, i, sections[i].end)
    {
      SectionEnds(source, headings, i, sections[i].end);
      RangesAreProper(source, headings, slug, sections, chains, i);
    }
    forall j, i | 0 <= j < i < |sections|
      ensures sections[j].end <= sections[i].start || sections[i].end <= sections[j].end
    {
      SectionsNest(source, headings, j, i, sections[j].end, sections[i].end);
    }
  }

  /** A section ends with the last byte that is no newline before the next heading of its own level or a higher one, or
      before the end of the file if there is none. */
  ghost predicate EndsAt(source: string, headings: seq<Heading>, i: nat, end: nat) {
    exists c: nat :: EndsBefore(source, headings, i, c, end)
  }

  ghost predicate EndsBefore(source: string, headings: seq<Heading>, i: nat, c: nat, end: nat) {
    && i < c <= |headings|
    && (forall k | i < k < c :: headings[k].level > headings[i].level)
    && (c < |headings| ==> headings[c].level <= headings[i].level)
    && var stop := if c < |headings| then headings[c].start else |source|;
       && headings[i].start < end <= stop <= |source| && source[end - 1] !in "\r\n"
       && forall k | end <= k < stop :: source[k] in "\r\n"
  }

  lemma {:induction false} SectionEnds(source: string, headings: seq<Heading>, i: nat, end: nat)
    requires Anchored(source, headings) && i < |headings|
    requires Trimmed(source, headings[i].start, RawEnd(headings, |source|, i), end)
    ensures EndsAt(source, headings, i, end)
  {
    var c := Closer(headings, i, i + 1);
    RawEndInFile(source, headings, i);
    TrimKeepsInk(source, headings[i].start, RawEnd(headings, |source|, i), end, headings[i].start);
    forall x: char ensures IsNewline(x) <==> x in "\r\n" {
    }
    assert EndsBefore(source, headings, i, c, end);
  }

  ghost predicate NamedByContainment(sections: seq<Section>, slug: string -> string, i: nat, chain: seq<nat>)
    requires i < |sections|
  {
    && (forall a, b | 0 <= a < b < |chain| :: chain[a] < chain[b])
    && (forall j :: j in chain <==> 0 <= j < i && Contains(sections[j], sections[i].start))
    && (forall a | 0 <= a < |chain| :: chain[a] < |sections|)
    && sections[i].qn == Text.Join(seq(|chain|, a requires 0 <= a < |chain| => slug(sections[chain[a]].title))
                                   + [slug(sections[i].title)])
  }

  lemma {:induction false} RangesAreProper(source: string, headings: seq<Heading>, slug: string -> string,
                                           sections: seq<Section>, chains: seq<seq<nat>>, i: nat)
    requires Anchored(source, headings) && |sections| == |chains| == |headings| && i < |sections|
    requires forall k | 0 <= k < |headings| :: Emitted(source, headings, slug, k, sections[k], chains[k])
    ensures sections[i].start < sections[i].end <= |source|
    ensures NamedByContainment(sections, slug, i, chains[i])
  {
    RawEndInFile(source, headings, i);
    TrimKeepsInk(source, sections[i].start, RawEnd(headings, |source|, i), sections[i].end, sections[i].start);
    var chain := chains[i];
    forall j: int
      ensures j in chain <==> 0 <= j < i && Contains(sections[j], sections[i].start)
    {
      if 0 <= j < i {
        assert Emitted(source, headings, slug, j, sections[j], chains[j]);
        SectionContains(source, headings, j, i, sections[j].end);
      }
    }
    assert SlugsOf(headings, slug, chain)
        == seq(|chain|, a requires 0 <= a < |chain| => slug(sections[chain[a]].title));
  }
}
