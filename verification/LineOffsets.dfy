/** Byte offset to line number, twice: the binary search over a table of line starts and the linear
    newline count of internal/ast/extractor.go. */
module LineOffsets {

  /** Newlines among the first n bytes. */
  function Newlines(source: string, n: nat): nat
    requires n <= |source|
  {
    if n == 0 then 0 else Newlines(source, n - 1) + if source[n - 1] == '\n' then 1 else 0
  }

  /** The line starts the table holds once the first n bytes are read: a newline starts a line unless
      it is the last byte of the file. */
  function Starts(source: string, n: nat): (r: seq<int>)
    requires n <= |source|
    ensures r != [] && forall k | 0 <= k < |r| :: 0 <= r[k] <= n
    ensures forall j, k | 0 <= j < k < |r| :: r[j] < r[k]
  {
    if n == 0 then [0]
    else Starts(source, n - 1) + if source[n - 1] == '\n' && n < |source| then [n] else []
  }

  /** The table holds 0 and every place right behind a newline that is not the last byte. */
  lemma {:induction false} StartsAre(source: string, n: nat, x: int)
    requires n <= |source|
    ensures x in Starts(source, n) <==> x == 0 || (0 < x <= n && x < |source| && source[x - 1] == '\n')
    decreases n
  {
    if n > 0 {
      StartsAre(source, n - 1, x);
    }
  }

  /** extractor.go `buildLineOffsets`: 0 and every place right behind a newline that is not the last byte, in order. */
  method BuildLineOffsets(source: string) returns (offsets: seq<int>)
    ensures offsets == Starts(source, |source|)
    ensures forall x :: x in offsets <==> x == 0 || (0 < x < |source| && source[x - 1] == '\n')
    ensures forall j, k | 0 <= j < k < |offsets| :: offsets[j] < offsets[k]
  {
    forall x ensures x in Starts(source, |source|) <==> x == 0 || (0 < x < |source| && source[x - 1] == '\n') {
      StartsAre(source, |source|, x);
    }
    offsets := [0];
    for i := 0 to |source|
      invariant offsets == Starts(source, i)
    {
      if source[i] == '\n' && i + 1 < |source| {
        offsets := offsets + [i + 1];
      }
    }
  }

  /** extractor.go `offsetToLine`: how many table entries are at or below the offset. */
  method OffsetToLine(lineOffsets: seq<int>, offset: int) returns (line: int)
    requires forall j, k | 0 <= j < k < |lineOffsets| :: lineOffsets[j] < lineOffsets[k]
    ensures 0 <= line <= |lineOffsets|
    ensures forall k | 0 <= k < line :: lineOffsets[k] <= offset
    ensures forall k | line <= k < |lineOffsets| :: lineOffsets[k] > offset
  {
    var lo, hi := 0, |lineOffsets| - 1;
    while lo <= hi
      invariant 0 <= lo <= hi + 1 <= |lineOffsets|
      invariant forall k | 0 <= k < lo :: lineOffsets[k] <= offset
      invariant forall k | hi < k < |lineOffsets| :: lineOffsets[k] > offset
    {
      var mid := (lo + hi) / 2;
      if lineOffsets[mid] <= offset {
        lo := mid + 1;
      } else {
        hi := mid - 1;
      }
    }
    return hi + 1;
  }

  lemma {:induction false} NewlinesCount(source: string, n: nat)
    requires n <= |source|
    ensures Newlines(source, n) == multiset(source[..n])['\n']
    decreases n
  {
    if n > 0 {
      NewlinesCount(source, n - 1);
      assert source[..n] == source[..n - 1] + [source[n - 1]];
      assert multiset(source[..n]) == multiset(source[..n - 1]) + multiset{source[n - 1]};
    }
  }

  /** extractor.go `offsetToLineNumber`: one more than the newlines before the offset. */
  method OffsetToLineNumber(source: string, off: nat) returns (line: nat)
    ensures line == 1 + Newlines(source, if off > |source| then |source| else off)
    ensures line == 1 + multiset(source[..if off > |source| then |source| else off])['\n']
  {
    NewlinesCount(source, if off > |source| then |source| else off);
    var end := if off > |source| then |source| else off;
    line := 1;
    for i := 0 to end
      invariant line == 1 + Newlines(source, i)
    {
      if source[i] == '\n' {
        line := line + 1;
      }
    }
  }

  /** Reading on only appends entries beyond what was read. */
  lemma {:induction false} StartsGrow(source: string, m: nat, n: nat)
    requires m <= n <= |source|
    ensures Starts(source, m) <= Starts(source, n)
    ensures forall k | |Starts(source, m)| <= k < |Starts(source, n)| :: Starts(source, n)[k] > m
    decreases n
  {
    if m < n {
      StartsGrow(source, m, n - 1);
    }
  }

  predicate EndsInNewline(source: string) {
    source != [] && source[|source| - 1] == '\n'
  }

  lemma {:induction false} StartsCount(source: string, n: nat)
    requires n <= |source|
    ensures |Starts(source, n)| == 1 + Newlines(source, n) - if n == |source| && EndsInNewline(source) then 1 else 0
  {
    if n > 0 {
      StartsCount(source, n - 1);
    }
  }

  /** The two line numbers of an offset agree, except that at or past the end of a file that ends in a
      newline the linear count is one greater. */
  lemma {:induction false} LookupsAgree(source: string, offset: nat, line: int)
    requires 0 <= line <= |Starts(source, |source|)|
    requires forall k | 0 <= k < line :: Starts(source, |source|)[k] <= offset
    requires forall k | line <= k < |Starts(source, |source|)| :: Starts(source, |source|)[k] > offset
    ensures 1 + Newlines(source, if offset > |source| then |source| else offset)
         == line + if offset >= |source| && EndsInNewline(source) then 1 else 0
  {
    var at := if offset > |source| then |source| else offset;
    StartsGrow(source, at, |source|);
    StartsCount(source, at);
    var table, prefix := Starts(source, |source|), Starts(source, at);
    assert forall k | 0 <= k < |prefix| :: table[k] == prefix[k] <= offset;
    var m := if line < |prefix| then line else |prefix|;
    assert m < |table| ==> (table[m] <= offset <==> m < line);
    assert line == |prefix|;
  }

  /** A file of one newline: its end is on line 1 by the search and on line 2 by the count. */
  lemma {:induction false} LookupsDiffer(line: int)
    requires 0 <= line <= |Starts("\n", 1)|
    requires forall k | 0 <= k < line :: Starts("\n", 1)[k] <= 1
    requires forall k | line <= k < |Starts("\n", 1)| :: Starts("\n", 1)[k] > 1
    ensures line == 1 && 1 + Newlines("\n", 1) == 2
  {
    assert Starts("\n", 0) == [0] && Newlines("\n", 0) == 0;
    assert Starts("\n", 1) == [0];
    assert Starts("\n", 1)[0] <= 1;
  }

  /** Both lookups side by side, as the extractors use them on one file. */
  method LineBothWays(source: string, offset: nat) returns (searched: int, counted: nat)
    ensures counted == searched + if offset >= |source| && EndsInNewline(source) then 1 else 0
  {
    var offsets := BuildLineOffsets(source);
    searched := OffsetToLine(offsets, offset);
    counted := OffsetToLineNumber(source, offset);
    LookupsAgree(source, offset, searched);
  }
}
