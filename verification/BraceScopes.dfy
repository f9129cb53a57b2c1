/** The scanner and the scope stack together: in a brace language of internal/ast/extractor.go, the line on which a
    function's block ends is `offsetToLine(findBraceBlock(lineStart))`. */
module BraceScopes {
  import opened Collections
  import opened BraceScanner
  import opened LineOffsets
  import opened FunctionScopes

  /** The byte offsets at which lines start. */
  function LineStarts(source: string): seq<int> { Starts(source, |source|) }

  /** What `offsetToLine` answers for an offset. */
  ghost predicate IsLine(source: string, offset: int, line: int) {
    && 0 <= line <= |LineStarts(source)|
    && (forall k | 0 <= k < line :: LineStarts(source)[k] <= offset)
    && (forall k | line <= k < |LineStarts(source)| :: LineStarts(source)[k] > offset)
  }

  /** The block that starts on line i ends at byte `end`, and marks says on which line. */
  ghost predicate EndsOn(source: string, marks: seq<Mark>, i: int, end: nat) {
    && 0 <= i < |marks| && i < |LineStarts(source)|
    && BlockEndsAt(source, LineStarts(source)[i], end) && IsLine(source, end, marks[i].end)
  }

  lemma {:induction false} LineReaches(source: string, offset: int, line: int, j: nat)
    requires IsLine(source, offset, line) && j < |LineStarts(source)|
    ensures j + 1 <= line <==> LineStarts(source)[j] <= offset
  {
  }

  /** Some line of the file starts behind byte a and no later than byte b. */
  ghost predicate LineBetween(source: string, marks: seq<Mark>, a: int, b: int) {
    exists k :: 0 <= k < |marks| && k < |LineStarts(source)| && a < LineStarts(source)[k] <= b
  }

  /** In terms of the line numbers: the first line behind a is there and starts no later than b. */
  lemma {:induction false} LineBetweenIff(source: string, marks: seq<Mark>, a: int, b: int, lineA: int, lineB: int)
    requires IsLine(source, a, lineA) && IsLine(source, b, lineB)
    ensures LineBetween(source, marks, a, b) <==> lineA < lineB && lineA < |marks|
  {
    if lineA < lineB && lineA < |marks| {
      assert a < LineStarts(source)[lineA] <= b;
    }
  }

  // ---------- Two scopes ----------

  /** The earlier block reaches the later line and ends before the header that starts there does. */
  ghost predicate ClosedInHeader(source: string, start2: nat, end1: nat) {
    start2 <= end1 && forall h: nat | HeaderStopsAt(source, start2, h) :: end1 <= h
  }

  /** The header of the earlier scope only stops inside the body that the later one opens. */
  ghost predicate StopsInBody(source: string, start1: nat, start2: nat, end2: nat) {
    exists h: nat, p: nat :: HeaderStopsAt(source, start1, h) && OpensBody(source, start2, p) && p < h < end2
  }

  /** A block ends no earlier than its header, and just there if the header opens no body. */
  lemma {:induction false} EndsFromStop(source: string, start: nat, h: nat, end: nat)
    requires HeaderStopsAt(source, start, h) && BlockEndsAt(source, start, end)
    ensures h <= end && (source[h] != '{' ==> end <= h + 1)
    ensures source[h] != '{' && end == h + 1 ==> source[h] == ';'
  {
  }

  /** Two blocks whose headers stop at the same byte end at the same byte. */
  lemma {:induction false} SameStopSameEnd(source: string, start1: nat, start2: nat, h: nat, end1: nat, end2: nat)
    requires HeaderStopsAt(source, start1, h) && BlockEndsAt(source, start1, end1)
    requires HeaderStopsAt(source, start2, h) && BlockEndsAt(source, start2, end2)
    ensures end1 == end2
  {
    assert source[h] == '{' ==> BodyEndsAt(source, h, end1) && BodyEndsAt(source, h, end2);
  }

  /** Of two blocks of which the later ends later, the earlier ends before the later line, or inside its header, or its
      own header stops inside the later body. */
  lemma {:induction false} WhyBlocksCross(source: string, start1: nat, start2: nat, end1: nat, end2: nat)
    requires BlockEndsAt(source, start1, end1) && BlockEndsAt(source, start2, end2)
    requires start2 <= end1 < end2 <= |source|
    ensures ClosedInHeader(source, start2, end1) || StopsInBody(source, start1, start2, end2)
  {
    if !ClosedInHeader(source, start2, end1) {
      var h2: nat :| HeaderStopsAt(source, start2, h2) && h2 < end1;
      var h1: nat :| HeaderStopsAt(source, start1, h1);
      EndsFromStop(source, start1, h1, end1);
      EndsFromStop(source, start2, h2, end2);
      if h1 == h2 {
        SameStopSameEnd(source, start1, start2, h1, end1, end2);
      } else if h1 < h2 {
        ScansNeverCross(source, start1, h1, end1, start2, h2, end2);
      } else {
        assert OpensBody(source, start2, h2) && h2 < h1 < end2;
      }
    }
  }

  /** Two function scopes cross if and only if a line starts between their ends and either the earlier block is closed
      inside the later header, or the earlier header stops inside the later body. */
  lemma {:induction false} CrossIff(source: string, marks: seq<Mark>, i: nat, j: nat, end1: nat, end2: nat)
    requires i < j && EndsOn(source, marks, i, end1) && EndsOn(source, marks, j, end2)
    requires marks[i].opens.Some? && marks[j].opens.Some?
    ensures var start1, start2 := LineStarts(source)[i], LineStarts(source)[j];
            Cross(marks, i, j) <==>
            && LineBetween(source, marks, end1, end2)
            && (ClosedInHeader(source, start2, end1) || StopsInBody(source, start1, start2, end2))
  {
    var start1, start2 := LineStarts(source)[i], LineStarts(source)[j];
    LineReaches(source, end1, marks[i].end, j);
    LineBetweenIff(source, marks, end1, end2, marks[i].end, marks[j].end);
    EndInFile(source, start2, end2);
    if Cross(marks, i, j) {
      WhyBlocksCross(source, start1, start2, end1, end2);
    }
    if h: nat, p: nat :| HeaderStopsAt(source, start1, h) && OpensBody(source, start2, p) && p < h < end2 {
      EndsFromStop(source, start1, h, end1);
    }
  }

  lemma {:induction false} EndInFile(source: string, start: nat, end: nat)
    requires BlockEndsAt(source, start, end)
    ensures end <= |source|
  {
    if h: nat :| HeaderStopsAt(source, start, h) {
    }
  }

  // ---------- Whole files ----------

  /** Every line's block end is where the scanner says. */
  ghost predicate Scanned(source: string, marks: seq<Mark>) {
    forall i | 0 <= i < |marks| :: ScannedAt(source, marks, i)
  }

  ghost predicate ScannedAt(source: string, marks: seq<Mark>, i: int) { exists end :: EndsOn(source, marks, i, end) }

  ghost predicate BothOpen(marks: seq<Mark>, i: int, j: int) {
    0 <= i < j < |marks| && marks[i].opens.Some? && marks[j].opens.Some?
  }

  /** Two scopes that cross, by the text. */
  ghost predicate Overlaps(source: string, marks: seq<Mark>, i: int, j: int) {
    && BothOpen(marks, i, j) && j < |LineStarts(source)|
    && exists end1, end2 :: OverlapAt(source, marks, i, j, end1, end2)
  }

  ghost predicate OverlapAt(source: string, marks: seq<Mark>, i: int, j: int, end1: nat, end2: nat) {
    && 0 <= i < j && EndsOn(source, marks, i, end1) && EndsOn(source, marks, j, end2)
    && LineBetween(source, marks, end1, end2)
    && (ClosedInHeader(source, LineStarts(source)[j], end1) ||
        StopsInBody(source, LineStarts(source)[i], LineStarts(source)[j], end2))
  }

  lemma {:induction false} CrossIffOverlaps(source: string, marks: seq<Mark>, i: int, j: int)
    requires Scanned(source, marks)
    ensures Cross(marks, i, j) <==> Overlaps(source, marks, i, j)
  {
    if BothOpen(marks, i, j) {
      assert ScannedAt(source, marks, i) && ScannedAt(source, marks, j);
      var end1 :| EndsOn(source, marks, i, end1);
      var end2 :| EndsOn(source, marks, j, end2);
      CrossIff(source, marks, i, j, end1, end2);
      assert Cross(marks, i, j) <==> OverlapAt(source, marks, i, j, end1, end2);
      forall e1, e2 | OverlapAt(source, marks, i, j, e1, e2) ensures Cross(marks, i, j) {
        CrossIff(source, marks, i, j, e1, e2);
      }
    }
  }

  /** In every brace file the stack holds exactly the enclosing functions on every line, if and only if no two function
      scopes overlap: none is closed inside the header of a later one, and no header stops inside the body of a later
      one, with a line between the ends. */
  lemma {:induction false} BraceStackIsExact(source: string, marks: seq<Mark>)
    requires Scanned(source, marks)
    ensures (forall n: nat, i | n < |marks| :: i in StackAt(marks, n) <==> Encloses(marks, i, n))
       <==> (forall i, j :: !Overlaps(source, marks, i, j))
  {
    StackIsExact(marks);
    forall i, j ensures Cross(marks, i, j) <==> Overlaps(source, marks, i, j) {
      CrossIffOverlaps(source, marks, i, j);
    }
  }

  // ---------- Scopes that do cross ----------

  /** Line 1 opens a parenthesis it does not close, so its header runs on through the function on line 2. */
  const UNCLOSED := "f(\ng{\n);\n}\n"

  /** Line 2 closes one function and opens the next. */
  const SHARED := "f{\n}g{\n}\n"

  lemma {:induction false} UnclosedLines()
    ensures LineStarts(UNCLOSED) == [0, 3, 6, 9]
  {
    assert Starts(UNCLOSED, 2) == [0];
    assert Starts(UNCLOSED, 4) == [0, 3];
    assert Starts(UNCLOSED, 6) == [0, 3, 6];
    assert Starts(UNCLOSED, 8) == [0, 3, 6];
    assert Starts(UNCLOSED, 10) == [0, 3, 6, 9];
  }

  lemma {:induction false} UnclosedHeader()
    ensures HeaderStopsAt(UNCLOSED, 0, 7) && BlockEndsAt(UNCLOSED, 0, 8)
  {
    HeaderStep(UNCLOSED, 0, 0, 0, false);
    HeaderStep(UNCLOSED, 0, 1, 0, false);
    HeaderStep(UNCLOSED, 0, 2, 1, false);
    HeaderStep(UNCLOSED, 0, 3, 1, false);
    HeaderStep(UNCLOSED, 0, 4, 1, false);
    HeaderStep(UNCLOSED, 0, 5, 1, false);
    HeaderStep(UNCLOSED, 0, 6, 1, false);
    HeaderStep(UNCLOSED, 0, 7, 0, false);
    AnswerAt(UNCLOSED, 0, 7, 8);
  }

  lemma {:induction false} UnclosedInner()
    ensures OpensBody(UNCLOSED, 3, 4) && BlockEndsAt(UNCLOSED, 3, 10)
  {
    HeaderStep(UNCLOSED, 3, 3, 0, false);
    HeaderStep(UNCLOSED, 3, 4, 0, false);
    UnclosedBody();
    AnswerAt(UNCLOSED, 3, 4, 10);
  }

  lemma {:induction false} UnclosedBody()
    ensures ClosesAt(UNCLOSED, 4, 10)
  {
    BodyBegins(UNCLOSED, 4);
    BodyStep(UNCLOSED, 4, 5, 1);
    BodyStep(UNCLOSED, 4, 6, 1);
    BodyStep(UNCLOSED, 4, 7, 1);
    BodyStep(UNCLOSED, 4, 8, 1);
    BodyStep(UNCLOSED, 4, 9, 1);
  }

  /** The header of f stops on line 3, inside the body of g, which ends on line 4: the scopes cross. */
  lemma {:induction false} UnclosedHeaderCrosses(marks: seq<Mark>)
    requires marks == [Mark(Some("f"), 3), Mark(Some("g"), 4), Mark(None, 3), Mark(None, 4)]
    ensures EndsOn(UNCLOSED, marks, 0, 8) && EndsOn(UNCLOSED, marks, 1, 10)
    ensures Cross(marks, 0, 1) && StopsInBody(UNCLOSED, 0, 3, 10)
  {
    UnclosedLines();
    UnclosedHeader();
    UnclosedInner();
    LineAt(UNCLOSED, 8, 3);
    LineAt(UNCLOSED, 10, 4);
  }

  lemma {:induction false} LineAt(source: string, offset: int, line: nat)
    requires line <= |LineStarts(source)|
    requires line > 0 ==> LineStarts(source)[line - 1] <= offset
    requires line < |LineStarts(source)| ==> LineStarts(source)[line] > offset
    ensures IsLine(source, offset, line)
  {
  }

  lemma {:induction false} SharedLines()
    ensures LineStarts(SHARED) == [0, 3, 7]
  {
    assert Starts(SHARED, 2) == [0];
    assert Starts(SHARED, 4) == [0, 3];
    assert Starts(SHARED, 6) == [0, 3];
    assert Starts(SHARED, 8) == [0, 3, 7];
  }

  lemma {:induction false} SharedFirst()
    ensures HeaderStopsAt(SHARED, 0, 1) && BlockEndsAt(SHARED, 0, 4)
  {
    HeaderStep(SHARED, 0, 0, 0, false);
    HeaderStep(SHARED, 0, 1, 0, false);
    BodyBegins(SHARED, 1);
    BodyStep(SHARED, 1, 2, 1);
    BodyStep(SHARED, 1, 3, 1);
    AnswerAt(SHARED, 0, 1, 4);
  }

  lemma {:induction false} SharedSecond()
    ensures HeaderStopsAt(SHARED, 3, 5) && BlockEndsAt(SHARED, 3, 8)
  {
    HeaderStep(SHARED, 3, 3, 0, false);
    HeaderStep(SHARED, 3, 4, 0, false);
    HeaderStep(SHARED, 3, 5, 0, false);
    BodyBegins(SHARED, 5);
    BodyStep(SHARED, 5, 6, 1);
    BodyStep(SHARED, 5, 7, 1);
    AnswerAt(SHARED, 3, 5, 8);
  }

  /** f is closed on the line of g's header, before that stops: the scopes cross. */
  lemma {:induction false} SharedLineCrosses(marks: seq<Mark>)
    requires marks == [Mark(Some("f"), 2), Mark(Some("g"), 3), Mark(None, 3)]
    ensures EndsOn(SHARED, marks, 0, 4) && EndsOn(SHARED, marks, 1, 8)
    ensures Cross(marks, 0, 1) && ClosedInHeader(SHARED, 3, 4)
  {
    SharedLines();
    SharedFirst();
    SharedSecond();
    forall h: nat | HeaderStopsAt(SHARED, 3, h) ensures h == 5 {
      HeaderStopUnique(SHARED, 3, h, 5);
    }
  }
}
