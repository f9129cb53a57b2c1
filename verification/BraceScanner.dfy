/** The brace-delimited block finder of internal/ast/extractor.go: `findBraceBlock` and the look-ahead
    `declContinuationAt` it uses. Both loops are proved against position-wise definitions. */
module BraceScanner {

  // ---------- Look-ahead past a newline ----------

  /** (cont, isWhere) as the source returns it: (false, false), (true, false) or (true, true). */
  datatype Continuation = Stop | Goes | Where

  predicate IsBlank(c: char) { c == ' ' || c == '\t' || c == '\r' || c == '\n' }

  predicate IsIdentByte(c: char) {
    c == '_' || 'a' <= c <= 'z' || 'A' <= c <= 'Z' || '0' <= c <= '9'
  }

  /** The word `where` stands at j and ends there. */
  predicate WhereWordAt(source: string, j: nat) {
    j + 5 <= |source| && source[j..j + 5] == "where" && (j + 5 == |source| || !IsIdentByte(source[j + 5]))
  }

  /** What the first non-blank byte of the rest of the file says. */
  function ContinuationOf(source: string, j: nat): Continuation {
    if j >= |source| then Stop
    else if source[j] == '{' then Goes
    else if source[j] == '-' && j + 1 < |source| && source[j + 1] == '>' then Goes
    else if WhereWordAt(source, j) then Where
    else Stop
  }

  /** j is the first position at or after `from` that is not blank, or the end of the file. */
  ghost predicate FirstInk(source: string, from: nat, j: nat) {
    && from <= j
    && (forall k | from <= k < j && k < |source| :: IsBlank(source[k]))
    && (if j < |source| then !IsBlank(source[j]) else j == from || j == |source|)
  }

  function SkipBlanks(source: string, from: nat): (j: nat)
    ensures FirstInk(source, from, j)
    decreases |source| - from
  {
    if from < |source| && IsBlank(source[from]) then SkipBlanks(source, from + 1) else from
  }

  function ContinuationAt(source: string, nl: nat): Continuation {
    ContinuationOf(source, SkipBlanks(source, nl + 1))
  }

  lemma {:induction false} FirstInkUnique(source: string, from: nat, i: nat, j: nat)
    requires FirstInk(source, from, i) && FirstInk(source, from, j)
    ensures i == j
  {
  }

  /** Behind a newline at nl, the first byte that is no blank is at j; j is the length of the file if there is none. */
  ghost predicate InkAfter(source: string, nl: nat, j: nat) {
    && nl < j <= |source|
    && (forall k | nl < k < j :: source[k] in " \t\r\n")
    && (j < |source| ==> source[j] !in " \t\r\n")
  }

  lemma {:induction false} InkIsFirst(source: string, nl: nat, j: nat)
    requires InkAfter(source, nl, j)
    ensures j == SkipBlanks(source, nl + 1)
  {
    forall c: char ensures IsBlank(c) <==> c in " \t\r\n" {
    }
    FirstInkUnique(source, nl + 1, j, SkipBlanks(source, nl + 1));
  }

  lemma {:induction false} InkExists(source: string, nl: nat)
    requires nl < |source|
    ensures InkAfter(source, nl, SkipBlanks(source, nl + 1))
  {
    forall c: char ensures IsBlank(c) <==> c in " \t\r\n" {
    }
  }

  /** The declaration goes on past a newline if and only if the first byte behind it that is no blank is a `{`, starts a
      `->`, or starts the whole word `where`. */
  lemma {:induction false} ContinuationIs(source: string, nl: nat, j: nat)
    requires InkAfter(source, nl, j)
    ensures ContinuationAt(source, nl) == Goes <==> "{" <= source[j..] || "->" <= source[j..]
    ensures ContinuationAt(source, nl) == Where <==>
            "where" <= source[j..] &&
            (j + 5 < |source| ==>
               var c := source[j + 5]; c != '_' && !('a' <= c <= 'z') && !('A' <= c <= 'Z') && !('0' <= c <= '9'))
  {
    InkIsFirst(source, nl, j);
    assert "{" <= source[j..] <==> j < |source| && source[j] == '{';
    assert "->" <= source[j..] <==> j + 1 < |source| && source[j] == '-' && source[j + 1] == '>';
    assert "where" <= source[j..] <==> j + 5 <= |source| && source[j..j + 5] == "where" by {
      if j + 5 <= |source| {
        assert source[j..][..5] == source[j..j + 5];
      }
    }
    if j + 5 <= |source| && source[j..j + 5] == "where" {
      assert source[j..j + 5][0] == source[j];
    }
  }

  /** extractor.go `declContinuationAt`: one line at a time, blank lines skipped. */
  method DeclContinuationAt(source: string, nl: nat) returns (c: Continuation)
    ensures c == ContinuationAt(source, nl)
    ensures forall j: nat | InkAfter(source, nl, j) ::
              && (c == Goes <==> "{" <= source[j..] || "->" <= source[j..])
              && (c == Where ==> "where" <= source[j..])
              && (c == Stop && "where" <= source[j..] ==>
                    j + 5 < |source| && var c := source[j + 5];
                    c == '_' || 'a' <= c <= 'z' || 'A' <= c <= 'Z' || '0' <= c <= '9')
  {
    forall j: nat | InkAfter(source, nl, j)
      ensures ContinuationAt(source, nl) == Goes <==> "{" <= source[j..] || "->" <= source[j..]
      ensures ContinuationAt(source, nl) == Where <==>
              "where" <= source[j..] &&
              (j + 5 < |source| ==>
                 var c := source[j + 5]; c != '_' && !('a' <= c <= 'z') && !('A' <= c <= 'Z') && !('0' <= c <= '9'))
    {
      ContinuationIs(source, nl, j);
    }
    var j := nl + 1;
    while j < |source|
      invariant nl + 1 <= j && (j <= |source| || j == nl + 1)
      invariant forall k | nl + 1 <= k < j :: IsBlank(source[k])
      decreases |source| - j
    {
      while j < |source| && (source[j] == ' ' || source[j] == '\t' || source[j] == '\r')
        invariant nl + 1 <= j <= |source|
        invariant forall k | nl + 1 <= k < j :: IsBlank(source[k])
      {
        j := j + 1;
      }
      if j >= |source| {
        break;
      }
      if source[j] == '\n' {
        j := j + 1;
        continue;
      }
      FirstInkUnique(source, nl + 1, j, SkipBlanks(source, nl + 1));
      assert j + 5 <= |source| ==> source[j..j + 5][0] == source[j];
      if source[j] == '{' {
        return Goes;
      }
      if source[j] == '-' && j + 1 < |source| && source[j + 1] == '>' {
        return Goes;
      }
      if source[j] == 'w' && j + 5 <= |source| && source[j..j + 5] == "where" {
        if j + 5 == |source| || !IsIdentByte(source[j + 5]) {
          return Where;
        }
      }
      return Stop;
    }
    FirstInkUnique(source, nl + 1, j, SkipBlanks(source, nl + 1));
    return Stop;
  }

  // ---------- Where a declaration's header stops ----------

  function Nested(c: char, depth: nat): nat {
    if c == '(' then depth + 1 else if c == ')' && depth > 0 then depth - 1 else depth
  }

  /** Open parentheses at position i of a scan from start; a stray `)` does not count. */
  function ParenDepth(source: string, start: nat, i: nat): nat
    requires start <= i <= |source|
    decreases i
  {
    if i == start then 0
    else
      var d := ParenDepth(source, start, i - 1);
      Nested(source[i - 1], d)
  }

  /** The newline at i, read at this depth, enters a `where` clause. */
  predicate Enters(source: string, i: nat, parenDepth: nat)
    requires i < |source|
  {
    source[i] == '\n' && parenDepth == 0 && ContinuationAt(source, i) == Where
  }

  predicate Halts(source: string, i: nat, parenDepth: nat, inWhereClause: bool)
    requires i < |source|
  {
    && parenDepth == 0
    && (source[i] == '{' || source[i] == ';'
        || (source[i] == '\n' && !inWhereClause && ContinuationAt(source, i) == Stop))
  }

  /** A newline outside parentheses at k is followed by a `where` clause. */
  ghost predicate OpensWhere(source: string, start: nat, k: nat)
    requires start <= k < |source|
  {
    Enters(source, k, ParenDepth(source, start, k))
  }

  ghost predicate InWhere(source: string, start: nat, i: nat)
    requires start <= i <= |source|
  {
    exists k :: start <= k < i && OpensWhere(source, start, k)
  }

  /** The header cannot continue past i: outside parentheses, i holds a `{`, a `;`, or a newline that
      neither lies in a `where` clause nor is followed by a continuation. */
  ghost predicate Stops(source: string, start: nat, i: nat)
    requires start <= i < |source|
  {
    Halts(source, i, ParenDepth(source, start, i), InWhere(source, start, i))
  }

  // ---------- The same on bytes ----------

  /** Where a header stops. Outside parentheses every `{` and `;` stops it, and a newline does unless a `where` clause
      has begun or the first byte behind it that is no blank is a `{`, starts a `->` or starts the whole word `where`.
      Nothing else stops it, and nothing inside parentheses. */
  lemma {:induction false} StopsIff(source: string, start: nat, i: nat, j: nat)
    requires start <= i && InkAfter(source, i, j)
    ensures Stops(source, start, i) <==>
            && ParenDepth(source, start, i) == 0
            && (|| source[i] == '{' || source[i] == ';'
                || (&& source[i] == '\n' && !InWhere(source, start, i)
                    && !("{" <= source[j..] || "->" <= source[j..])
                    && !("where" <= source[j..] &&
                         (j + 5 < |source| ==>
                            var c := source[j + 5];
                            c != '_' && !('a' <= c <= 'z') && !('A' <= c <= 'Z') && !('0' <= c <= '9')))))
  {
    ContinuationIs(source, i, j);
  }

  /** A `where` clause has begun if and only if, outside parentheses, some newline before i is followed by that word. */
  lemma {:induction false} InWhereIff(source: string, start: nat, i: nat)
    requires start <= i <= |source|
    ensures InWhere(source, start, i) <==>
            exists k, j :: start <= k < i && WhereBehind(source, start, k, j)
  {
    forall k, j | start <= k < i && WhereBehind(source, start, k, j) ensures OpensWhere(source, start, k) {
      ContinuationIs(source, k, j);
    }
    if k :| start <= k < i && OpensWhere(source, start, k) {
      var j := SkipBlanks(source, k + 1);
      InkExists(source, k);
      ContinuationIs(source, k, j);
      assert WhereBehind(source, start, k, j);
    }
  }

  /** The newline at k, outside parentheses, is followed by the whole word `where` at j. */
  ghost predicate WhereBehind(source: string, start: nat, k: nat, j: nat) {
    && start <= k < |source| && source[k] == '\n' && ParenDepth(source, start, k) == 0
    && InkAfter(source, k, j) && "where" <= source[j..]
    && (j + 5 < |source| ==>
          var c := source[j + 5]; c != '_' && !('a' <= c <= 'z') && !('A' <= c <= 'Z') && !('0' <= c <= '9'))
  }

  /** More `(` than `)`, by how many. */
  ghost function Surplus(s: string): int {
    multiset(s)['('] as int - multiset(s)[')'] as int
  }

  lemma {:induction false} SurplusStep(s: string, c: char)
    ensures Surplus(s + [c]) == Surplus(s) + if c == '(' then 1 else if c == ')' then -1 else 0
    ensures Surplus([]) == 0
  {
    assert multiset(s + [c]) == multiset(s) + multiset{c};
  }

  /** How deep in parentheses a scan is: the largest surplus of `(` over `)` in what was last read, however much of it
      is looked at. So a stray `)` does not count against later ones. */
  lemma {:induction false} DepthIsSurplus(source: string, start: nat, i: nat)
    requires start <= i <= |source|
    ensures forall k | start <= k <= i ::
              multiset(source[k..i])['('] <= multiset(source[k..i])[')'] + ParenDepth(source, start, i)
    ensures exists k :: start <= k <= i &&
              multiset(source[k..i])['('] == multiset(source[k..i])[')'] + ParenDepth(source, start, i)
    decreases i
  {
    var d := ParenDepth(source, start, i);
    if i == start {
      assert source[i..i] == [];
      assert Surplus(source[start..i]) == d;
    } else {
      DepthIsSurplus(source, start, i - 1);
      var c, before := source[i - 1], ParenDepth(source, start, i - 1);
      forall k | start <= k < i ensures Surplus(source[k..i]) == Surplus(source[k..i - 1]) +
                                        if c == '(' then 1 else if c == ')' then -1 else 0 {
        assert source[k..i] == source[k..i - 1] + [c];
        SurplusStep(source[k..i - 1], c);
      }
      SurplusStep([], c);
      assert source[i..i] == [];
      forall k | start <= k <= i ensures Surplus(source[k..i]) <= d {
      }
      var m :| start <= m <= i - 1 && Surplus(source[m..i - 1]) == before;
      assert Surplus(source[if c == ')' && before == 0 then i else m..i]) == d;
    }
  }

  /** Opening minus closing braces, counted. */
  lemma {:induction false} BalanceCounts(s: string)
    ensures multiset(s)['{'] == multiset(s)['}'] + Balance(s)
    decreases |s|
  {
    if s != [] {
      var before, c := s[..|s| - 1], s[|s| - 1];
      BalanceCounts(before);
      assert s == before + [c];
      assert multiset(s) == multiset(before) + multiset{c};
    }
  }

  /** The header of the declaration at start ends at i. */
  ghost predicate HeaderStopsAt(source: string, start: nat, i: nat) {
    start <= i < |source| && Stops(source, start, i) && forall k | start <= k < i :: !Stops(source, start, k)
  }

  /** A scan from start opens a body at p. */
  ghost predicate OpensBody(source: string, start: nat, p: nat) {
    HeaderStopsAt(source, start, p) && source[p] == '{'
  }

  // ---------- Where a body ends ----------

  /** Opening minus closing braces. */
  function Balance(s: string): int {
    if s == [] then 0
    else Balance(s[..|s| - 1]) + (if s[|s| - 1] == '{' then 1 else if s[|s| - 1] == '}' then -1 else 0)
  }

  /** source[p..q] is the shortest non-empty balanced prefix of source[p..]. */
  ghost predicate ClosesAt(source: string, p: nat, q: nat) {
    && p < q <= |source| && Balance(source[p..q]) == 0
    && forall r | p < r < q :: Balance(source[p..r]) != 0
  }

  /** The body opened at p runs to q: to the brace that closes it, or to the end of the file. */
  ghost predicate BodyEndsAt(source: string, p: nat, q: nat) {
    || ClosesAt(source, p, q)
    || (q == |source| && p < q && forall r | p < r <= |source| :: Balance(source[p..r]) != 0)
  }

  // ---------- The scanner ----------

  /** What `findBraceBlock` answers, by where the header stops. */
  ghost predicate BlockEndsAt(source: string, start: nat, end: nat) {
    && (forall i: nat | HeaderStopsAt(source, start, i) ::
          if source[i] == '{' then BodyEndsAt(source, i, end)
          else if source[i] == ';' then end == i + 1
          else end == i)
    && ((forall i: nat :: !HeaderStopsAt(source, start, i)) ==> end == |source|)
  }

  lemma {:induction false} HeaderStopUnique(source: string, start: nat, i: nat, j: nat)
    requires HeaderStopsAt(source, start, i) && HeaderStopsAt(source, start, j)
    ensures i == j
  {
  }

  /** The scan from start has reached i without leaving the header. */
  ghost predicate InHeader(source: string, start: nat, i: nat, parenDepth: nat, inWhereClause: bool) {
    && start <= i <= |source|
    && parenDepth == ParenDepth(source, start, i)
    && (inWhereClause <==> InWhere(source, start, i))
    && forall k | start <= k < i :: !Stops(source, start, k)
  }

  lemma {:induction false} HeaderStep(source: string, start: nat, i: nat, parenDepth: nat, inWhereClause: bool)
    requires i < |source| && InHeader(source, start, i, parenDepth, inWhereClause)
    ensures if Halts(source, i, parenDepth, inWhereClause) then HeaderStopsAt(source, start, i)
            else InHeader(source, start, i + 1, Nested(source[i], parenDepth),
                          inWhereClause || Enters(source, i, parenDepth))
  {
    InWhereStep(source, start, i);
  }

  /** The scan has reached i inside the body opened at p. */
  ghost predicate InBody(source: string, p: nat, i: nat, depth: int) {
    && p < i <= |source| && depth == Balance(source[p..i]) > 0
    && forall r | p < r <= i :: Balance(source[p..r]) != 0
  }

  lemma {:induction false} BodyBegins(source: string, p: nat)
    requires p < |source| && source[p] == '{'
    ensures InBody(source, p, p + 1, 1)
  {
    BalanceStep(source, p, p);
  }

  lemma {:induction false} BodyStep(source: string, p: nat, i: nat, depth: int)
    requires i < |source| && InBody(source, p, i, depth)
    ensures var depth' := depth + (if source[i] == '{' then 1 else if source[i] == '}' then -1 else 0);
            if depth' == 0 then ClosesAt(source, p, i + 1) else InBody(source, p, i + 1, depth')
  {
    BalanceStep(source, p, i);
  }

  /** From p on, `{` outnumber `}` up to end, where they are even or the file ends. */
  ghost predicate BracesClose(source: string, p: nat, end: nat) {
    && p < end <= |source|
    && (forall r | p < r < end :: multiset(source[p..r])['{'] > multiset(source[p..r])['}'])
    && (end == |source| || multiset(source[p..end])['{'] == multiset(source[p..end])['}'])
  }

  lemma {:induction false} BodyCloses(source: string, p: nat, end: nat)
    requires p < |source| && source[p] == '{' && BodyEndsAt(source, p, end)
    ensures BracesClose(source, p, end)
  {
    forall r | p < r < end ensures multiset(source[p..r])['{'] > multiset(source[p..r])['}'] {
      OpenUpTo(source, p, end, r);
      BalanceCounts(source[p..r]);
    }
    BalanceCounts(source[p..end]);
  }

  lemma {:induction false} OpenUpTo(source: string, p: nat, end: nat, r: nat)
    requires p < |source| && source[p] == '{' && BodyEndsAt(source, p, end) && p < r < end
    ensures Balance(source[p..r]) > 0
    decreases r
  {
    BalanceStep(source, p, r - 1);
    if r == p + 1 {
      assert source[p..p] == [];
    } else {
      OpenUpTo(source, p, end, r - 1);
    }
  }

  lemma {:induction false} AnswerForms(source: string, start: nat, i: nat, end: nat)
    requires BlockEndsAt(source, start, end) && HeaderStopsAt(source, start, i)
    ensures source[i] in "{;\n" && (source[i] == ';' ==> end == i + 1) && (source[i] == '\n' ==> end == i)
    ensures source[i] == '{' ==> BracesClose(source, i, end)
  {
    if source[i] == '{' {
      BodyCloses(source, i, end);
    }
  }

  /** `findBraceBlock` with `started` set: the body opened at p. */
  method ScanBody(source: string, p: nat) returns (end: nat)
    requires p < |source| && source[p] == '{'
    ensures BodyEndsAt(source, p, end)
  {
    var depth, i := 1, p + 1;
    BodyBegins(source, p);
    while i < |source|
      invariant InBody(source, p, i, depth)
    {
      BodyStep(source, p, i, depth);
      if source[i] == '{' {
        depth := depth + 1;
      } else if source[i] == '}' {
        depth := depth - 1;
        if depth == 0 {
          return i + 1;
        }
      }
      i := i + 1;
    }
    return |source|;
  }

  /** extractor.go `findBraceBlock`. The one loop there runs in two modes, and `started`, once set, stays set;
      the second mode is `ScanBody`. */
  method FindBraceBlock(source: string, start: nat) returns (end: nat)
    ensures BlockEndsAt(source, start, end)
    ensures start <= |source| ==> start <= end <= |source|
    ensures (forall i: nat :: !HeaderStopsAt(source, start, i)) ==> end == |source|
    ensures forall i: nat | HeaderStopsAt(source, start, i) ::
              && source[i] in "{;\n" && (source[i] == ';' ==> end == i + 1) && (source[i] == '\n' ==> end == i)
              && (source[i] == '{' ==> BracesClose(source, i, end))
  {
    var parenDepth: nat, inWhereClause := 0, false;
    var i: nat := start;
    while i < |source|
      invariant start <= i && (i <= |source| || i == start)
      invariant i <= |source| ==> InHeader(source, start, i, parenDepth, inWhereClause)
      decreases |source| - i
    {
      var c := source[i];
      HeaderStep(source, start, i, parenDepth, inWhereClause);
      if c == '(' {
        parenDepth := parenDepth + 1;
      } else if c == ')' {
        if parenDepth > 0 {
          parenDepth := parenDepth - 1;
        }
      } else if c == '{' {
        if parenDepth == 0 {
          end := ScanBody(source, i);
          AnswerAt(source, start, i, end);
          return;
        }
      } else if c == ';' {
        if parenDepth == 0 {
          AnswerAt(source, start, i, i + 1);
          return i + 1;
        }
      } else if c == '\n' {
        if parenDepth == 0 && !inWhereClause {
          var cont := DeclContinuationAt(source, i);
          if cont == Stop {
            AnswerAt(source, start, i, i);
            return i;
          }
          if cont == Where {
            inWhereClause := true;
          }
        }
      }
      i := i + 1;
    }
    return |source|;
  }

  lemma {:induction false} InWhereStep(source: string, start: nat, i: nat)
    requires start <= i < |source|
    ensures InWhere(source, start, i + 1) <==> InWhere(source, start, i) || OpensWhere(source, start, i)
  {
  }

  lemma {:induction false} BalanceStep(source: string, p: nat, i: nat)
    requires p <= i < |source|
    ensures Balance(source[p..i + 1])
         == Balance(source[p..i]) + (if source[i] == '{' then 1 else if source[i] == '}' then -1 else 0)
  {
    assert source[p..i + 1][..i - p] == source[p..i];
  }

  lemma {:induction false} AnswerAt(source: string, start: nat, i: nat, end: nat)
    requires HeaderStopsAt(source, start, i)
    requires if source[i] == '{' then BodyEndsAt(source, i, end)
             else if source[i] == ';' then end == i + 1
             else end == i
    ensures BlockEndsAt(source, start, end)
    ensures forall j: nat :: HeaderStopsAt(source, start, j) <==> j == i
    ensures source[i] in "{;\n" && (source[i] == '{' ==> BracesClose(source, i, end))
  {
    forall j: nat | HeaderStopsAt(source, start, j) ensures j == i {
      HeaderStopUnique(source, start, i, j);
    }
    AnswerForms(source, start, i, end);
  }

  /** A scan has one answer. */
  lemma {:induction false} BlockEndUnique(source: string, start: nat, q: nat, r: nat)
    requires BlockEndsAt(source, start, q) && BlockEndsAt(source, start, r)
    ensures q == r
  {
    if i: nat :| HeaderStopsAt(source, start, i) {
      assert source[i] == '{' ==> BodyEndsAt(source, i, q) && BodyEndsAt(source, i, r);
    }
  }

  // ---------- Bodies never cross ----------

  lemma {:induction false} BalanceSplit(source: string, p: nat, q: nat, r: nat)
    requires p <= q <= r <= |source|
    ensures Balance(source[p..r]) == Balance(source[p..q]) + Balance(source[q..r])
    decreases r
  {
    if q == r {
    } else {
      BalanceSplit(source, p, q, r - 1);
      BalanceStep(source, p, r - 1);
      BalanceStep(source, q, r - 1);
    }
  }

  /** Inside an open body the balance stays positive. */
  lemma {:induction false} OpenStaysPositive(source: string, p: nat, r: nat)
    requires p < r <= |source| && source[p] == '{'
    requires forall k | p < k <= r :: Balance(source[p..k]) != 0
    ensures Balance(source[p..r]) > 0
    decreases r
  {
    if r == p + 1 {
      BalanceStep(source, p, p);
    } else {
      OpenStaysPositive(source, p, r - 1);
      BalanceStep(source, p, r - 1);
    }
  }

  /** Of two bodies, the later lies wholly after the earlier one or wholly inside it. Nothing is asked of the
      file: braces may be unbalanced. */
  lemma {:induction false} BodiesNeverCross(source: string, p1: nat, q1: nat, p2: nat, q2: nat)
    requires p1 < p2 < |source| && source[p1] == '{' && source[p2] == '{'
    requires BodyEndsAt(source, p1, q1) && BodyEndsAt(source, p2, q2)
    ensures q1 <= p2 || q2 <= q1
  {
    if p2 < q1 < |source| {
      OpenStaysPositive(source, p1, p2);
      BalanceSplit(source, p1, p2, q1);
      if forall r | p2 < r <= q1 :: Balance(source[p2..r]) != 0 {
        OpenStaysPositive(source, p2, q1);
      }
    }
  }

  /** So scans of one file from any two starts that open bodies at p1 < p2 never cross. */
  lemma {:induction false} ScansNeverCross(source: string, start1: nat, p1: nat, q1: nat, start2: nat, p2: nat, q2: nat)
    ensures OpensBody(source, start1, p1) && BlockEndsAt(source, start1, q1) &&
            OpensBody(source, start2, p2) && BlockEndsAt(source, start2, q2) && p1 < p2 ==>
              q1 <= p2 || q2 <= q1
  {
    if OpensBody(source, start1, p1) && BlockEndsAt(source, start1, q1) &&
       OpensBody(source, start2, p2) && BlockEndsAt(source, start2, q2) && p1 < p2 {
      assert BodyEndsAt(source, p1, q1) && BodyEndsAt(source, p2, q2);
      BodiesNeverCross(source, p1, q1, p2, q2);
    }
  }
}
