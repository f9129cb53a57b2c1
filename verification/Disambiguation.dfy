/** Colliding qualified names: `disambiguateDuplicates` of internal/ast/extractor.go. */
module Disambiguation {
  import opened Collections
  import Text

  datatype Symbol = Symbol(name: string, qn: string, kind: string, startByte: int, endByte: int,
                           startLine: nat, endLine: int, signature: string, parent: string)

  datatype Key = Key(qn: string, kind: string)

  function KeyOf(s: Symbol): Key { Key(s.qn, s.kind) }

  function Keys(symbols: seq<Symbol>): (keys: seq<Key>)
    ensures |keys| == |symbols| && forall i | 0 <= i < |keys| :: keys[i] == KeyOf(symbols[i])
  {
    seq(|symbols|, i requires 0 <= i < |symbols| => KeyOf(symbols[i]))
  }

  /** An earlier symbol has the same key. */
  ghost predicate Repeats(symbols: seq<Symbol>, i: int) {
    0 <= i < |symbols| && exists j :: 0 <= j < i && KeyOf(symbols[j]) == KeyOf(symbols[i])
  }

  function Suffixed(s: Symbol): Symbol { s.(qn := s.qn + "~" + Text.Itoa(s.startLine)) }

  /** What a pass leaves at position j: later symbols of a key carry their line. */
  ghost function After(symbols: seq<Symbol>, j: nat): Symbol
    requires j < |symbols|
  {
    if Repeats(symbols, j) then Suffixed(symbols[j]) else symbols[j]
  }

  /** Later symbols of a key carry their line, and nothing else changes. */
  ghost predicate Renamed(before: seq<Symbol>, after: seq<Symbol>) {
    && |after| == |before|
    && forall i | 0 <= i < |before| :: after[i] == After(before, i)
  }

  /** The number of symbols with key k. */
  function Occurrences(symbols: seq<Symbol>, k: Key): nat { Count(Keys(symbols), k, |symbols|) }

  /** The keys the collision table is built from. */
  ghost predicate Collides(symbols: seq<Symbol>, k: Key) { Occurrences(symbols, k) > 1 }

  lemma {:induction false} CountOfRepeat(symbols: seq<Symbol>, i: nat)
    requires i < |symbols|
    ensures Repeats(symbols, i) <==> Count(Keys(symbols), KeyOf(symbols[i]), i) > 0
    ensures Repeats(symbols, i) ==> Collides(symbols, KeyOf(symbols[i]))
  {
    var keys := Keys(symbols);
    CountPositive(keys, keys[i], i);
    CountGrows(keys, keys[i], i + 1, |keys|);
    if j :| 0 <= j < i && keys[j] == keys[i] {
      assert KeyOf(symbols[j]) == KeyOf(symbols[i]);
    }
  }

  /** A symbol is renamed if and only if an earlier one has its qualified name and its kind; it then gets a tilde and
      its line behind its name, and keeps everything else. */
  lemma {:induction false} RenamedForms(before: seq<Symbol>)
    ensures forall i: nat | i < |before| ::
              After(before, i) ==
              if exists j :: 0 <= j < i && before[j].qn == before[i].qn && before[j].kind == before[i].kind
              then before[i].(qn := before[i].qn + "~" + Text.Itoa(before[i].startLine)) else before[i]
  {
    forall i: nat | i < |before|
      ensures Repeats(before, i) <==>
              exists j :: 0 <= j < i && before[j].qn == before[i].qn && before[j].kind == before[i].kind
    {
      if j :| 0 <= j < i && before[j].qn == before[i].qn && before[j].kind == before[i].kind {
        assert KeyOf(before[j]) == KeyOf(before[i]);
      }
    }
  }

  /** A name and kind collide if and only if two symbols have them. */
  lemma {:induction false} CollidesIff(symbols: seq<Symbol>, k: Key)
    ensures Collides(symbols, k) <==>
            exists i, j :: 0 <= i < j < |symbols| && symbols[i].qn == symbols[j].qn == k.qn &&
                           symbols[i].kind == symbols[j].kind == k.kind
  {
    var keys := Keys(symbols);
    if Collides(symbols, k) {
      var i := CountAttained(keys, k, |keys|, 0);
      var j := CountAttained(keys, k, |keys|, 1);
      assert i != j && KeyOf(symbols[i]) == KeyOf(symbols[j]) == k;
      var a, b := if i < j then i else j, if i < j then j else i;
      assert symbols[a].qn == symbols[b].qn == k.qn;
    }
    forall i: nat, j: nat | i < j < |symbols| && symbols[i].qn == symbols[j].qn == k.qn &&
                            symbols[i].kind == symbols[j].kind == k.kind
      ensures Collides(symbols, k)
    {
      assert KeyOf(symbols[i]) == k && KeyOf(symbols[j]) == k;
      assert Repeats(symbols, j);
      CountOfRepeat(symbols, j);
    }
  }

  class FileResult {
    var symbols: seq<Symbol>
    var qnCollisions: map<string, nat>

    constructor (symbols: seq<Symbol>)
      ensures this.symbols == symbols && qnCollisions == map[]
    {
      this.symbols, qnCollisions := symbols, map[];
    }

    /** extractor.go `disambiguateDuplicates`. The collision table is left alone when nothing collides;
        otherwise it lists the colliding names, each with the count of one of its colliding kinds. */
    method DisambiguateDuplicates()
      modifies this
      ensures Renamed(old(symbols), symbols)
      ensures var before := old(symbols);
              && |symbols| == |before|
              && forall i | 0 <= i < |before| ::
                   symbols[i] ==
                   if exists j :: 0 <= j < i && before[j].qn == before[i].qn && before[j].kind == before[i].kind
                   then before[i].(qn := before[i].qn + "~" + Text.Itoa(before[i].startLine)) else before[i]
      ensures (forall k :: !Collides(old(symbols), k)) ==> qnCollisions == old(qnCollisions)
      ensures (exists k :: Collides(old(symbols), k)) ==> Lists(old(symbols), qnCollisions)
    {
      RenamedForms(symbols);
      if |symbols| <= 1 {
        FewDoNotCollide(symbols);
        return;
      }
      var count := CountKeys(Keys(symbols));
      var collisions := CollectCollisions(symbols, count);
      if |collisions| == 0 {
        NoCollisionNoRepeat(symbols, collisions);
        return;
      }
      SomeCollision(symbols, collisions);
      symbols := SuffixRepeats(symbols, count);
      qnCollisions := collisions;
    }
  }

  lemma {:induction false} FewDoNotCollide(symbols: seq<Symbol>)
    requires |symbols| <= 1
    ensures Renamed(symbols, symbols) && forall k :: !Collides(symbols, k)
  {
    forall k ensures !Collides(symbols, k) {
      assert symbols != [] ==> Count(Keys(symbols), k, 0) == 0;
    }
  }

  /** Every colliding name, with the count of one of its colliding kinds. */
  ghost predicate Lists(symbols: seq<Symbol>, collisions: map<string, nat>) {
    && (forall k | Collides(symbols, k) :: k.qn in collisions)
    && (forall qn | qn in collisions ::
          exists k: Key :: k.qn == qn && Collides(symbols, k) && collisions[qn] == Occurrences(symbols, k))
  }

  /** Ranges over the counts in an unspecified order; of two colliding kinds of a name the last one stays. */
  method CollectCollisions(symbols: seq<Symbol>, count: map<Key, nat>) returns (collisions: map<string, nat>)
    requires Tallies(count, Keys(symbols), |symbols|)
    ensures Lists(symbols, collisions)
  {
    collisions := map[];
    var rest := count.Keys;
    assert forall k | Collides(symbols, k) :: Tally(count, k) > 1;
    while rest != {}
      invariant rest <= count.Keys
      invariant forall k | Collides(symbols, k) && k !in rest :: k.qn in collisions
      invariant forall qn | qn in collisions ::
        exists k: Key :: k.qn == qn && Collides(symbols, k) && collisions[qn] == Occurrences(symbols, k)
      decreases rest
    {
      var k :| k in rest;
      rest := rest - {k};
      assert Tally(count, k) == Occurrences(symbols, k);
      if count[k] > 1 {
        collisions := collisions[k.qn := count[k]];
      }
    }
  }

  lemma {:induction false} NoCollisionNoRepeat(symbols: seq<Symbol>, collisions: map<string, nat>)
    requires collisions == map[] && Lists(symbols, collisions)
    ensures Renamed(symbols, symbols)
  {
    forall i: nat | i < |symbols| ensures !Repeats(symbols, i) {
      CountOfRepeat(symbols, i);
      assert !Collides(symbols, KeyOf(symbols[i]));
    }
  }

  lemma {:induction false} SomeCollision(symbols: seq<Symbol>, collisions: map<string, nat>)
    requires |collisions| > 0 && Lists(symbols, collisions)
    ensures exists k :: Collides(symbols, k)
  {
    assert collisions != map[];
    var qn :| qn in collisions;
    assert exists k: Key :: k.qn == qn && Collides(symbols, k) && collisions[qn] == Occurrences(symbols, k);
  }

  /** `seen` counts the colliding keys among the first n symbols. */
  ghost predicate Seen(symbols: seq<Symbol>, seen: map<Key, nat>, n: nat) {
    n <= |symbols| && forall k | Collides(symbols, k) :: Tally(seen, k) == Count(Keys(symbols), k, n)
  }

  lemma {:induction false} SeenStep(symbols: seq<Symbol>, seen: map<Key, nat>, i: nat)
    requires i < |symbols| && Seen(symbols, seen, i)
    ensures var k := KeyOf(symbols[i]);
            Seen(symbols, if Collides(symbols, k) then seen[k := Tally(seen, k) + 1] else seen, i + 1)
  {
    forall k | Collides(symbols, k)
      ensures Count(Keys(symbols), k, i + 1)
           == Count(Keys(symbols), k, i) + if KeyOf(symbols[i]) == k then 1 else 0
    {
    }
  }

  lemma {:induction false} RepeatIsSeen(symbols: seq<Symbol>, seen: map<Key, nat>, i: nat)
    requires i < |symbols| && Seen(symbols, seen, i)
    ensures var k := KeyOf(symbols[i]);
            Repeats(symbols, i) <==> Collides(symbols, k) && Tally(seen, k) > 0
  {
    CountOfRepeat(symbols, i);
  }

  /** The rewriting pass. */
  method SuffixRepeats(symbols: seq<Symbol>, count: map<Key, nat>) returns (result: seq<Symbol>)
    requires Tallies(count, Keys(symbols), |symbols|)
    ensures Renamed(symbols, result)
  {
    result := symbols;
    var seen: map<Key, nat> := map[];
    for i := 0 to |symbols|
      invariant |result| == |symbols| && Seen(symbols, seen, i)
      invariant forall j | 0 <= j < i :: result[j] == After(symbols, j)
      invariant forall j | i <= j < |symbols| :: result[j] == symbols[j]
    {
      var s;
      s, seen := SuffixOne(symbols, count, seen, i, result[i]);
      result := result[i := s];
    }
  }

  method SuffixOne(ghost symbols: seq<Symbol>, count: map<Key, nat>, seen: map<Key, nat>, ghost i: nat, s: Symbol)
    returns (s': Symbol, seen': map<Key, nat>)
    requires i < |symbols| && s == symbols[i]
    requires Tallies(count, Keys(symbols), |symbols|) && Seen(symbols, seen, i)
    ensures s' == After(symbols, i) && Seen(symbols, seen', i + 1)
  {
    var k := KeyOf(s);
    RepeatIsSeen(symbols, seen, i);
    SeenStep(symbols, seen, i);
    assert Tally(count, k) == Occurrences(symbols, k);
    s', seen' := s, seen;
    if Tally(count, k) > 1 {
      seen' := seen[k := Tally(seen, k) + 1];
      if seen'[k] != 1 {
        s' := Suffixed(s);
      }
    }
  }

  // ---------- When the names end up distinct ----------

  ghost predicate DistinctKeys(symbols: seq<Symbol>) {
    forall i, j | 0 <= i < j < |symbols| :: KeyOf(symbols[i]) != KeyOf(symbols[j])
  }

  /** Two later symbols of one key never start on the same line. */
  ghost predicate RepeatsOnOwnLines(symbols: seq<Symbol>) {
    forall i, j | 0 <= i < j < |symbols| && Repeats(symbols, i) && KeyOf(symbols[i]) == KeyOf(symbols[j]) ::
      symbols[i].startLine != symbols[j].startLine
  }

  /** The first symbol of its key has the very name that the repeat j is given. */
  ghost predicate Spells(symbols: seq<Symbol>, i: int, j: int) {
    && 0 <= i < |symbols| && !Repeats(symbols, i) && Repeats(symbols, j)
    && KeyOf(symbols[i]) == KeyOf(Suffixed(symbols[j]))
  }

  /** Renaming makes all keys distinct if and only if the repeats of each key start on lines of their own and
      no symbol is already called what a repeat gets to be called. */
  lemma {:induction false} DistinctIff(before: seq<Symbol>, after: seq<Symbol>)
    requires Renamed(before, after)
    ensures DistinctKeys(after) <==> RepeatsOnOwnLines(before) && forall i, j :: !Spells(before, i, j)
  {
    forall i, j | 0 <= i < |before| && 0 <= j < |before| && i != j
      ensures KeyOf(after[i]) == KeyOf(after[j]) <==>
              SameLine(before, i, j) || Spells(before, i, j) || Spells(before, j, i)
    {
      KeysAfter(before, after, i, j);
    }
    forall i, j | Spells(before, i, j) ensures !DistinctKeys(after) {
      assert i != j;
      assert KeyOf(after[i]) == KeyOf(after[j]);
    }
    forall i, j | 0 <= i < j < |before| && Repeats(before, i) && KeyOf(before[i]) == KeyOf(before[j]) &&
                  before[i].startLine == before[j].startLine
      ensures !DistinctKeys(after)
    {
      assert SameLine(before, i, j);
    }
  }

  /** Two repeats of one key that start on one line. */
  ghost predicate SameLine(symbols: seq<Symbol>, i: int, j: int) {
    && Repeats(symbols, i) && Repeats(symbols, j)
    && KeyOf(symbols[i]) == KeyOf(symbols[j]) && symbols[i].startLine == symbols[j].startLine
  }

  lemma {:induction false} KeysAfter(before: seq<Symbol>, after: seq<Symbol>, i: nat, j: nat)
    requires Renamed(before, after) && i < |before| && j < |before| && i != j
    ensures KeyOf(after[i]) == KeyOf(after[j]) <==>
            SameLine(before, i, j) || Spells(before, i, j) || Spells(before, j, i)
  {
    var a, b := before[i], before[j];
    assert KeyOf(a) == KeyOf(b) ==> Repeats(before, if i < j then j else i);
    if Repeats(before, i) && Repeats(before, j) && Suffixed(a).qn == Suffixed(b).qn {
      SuffixReadsBack(a, b);
    }
  }

  /** Numerals hold no tilde, so a suffixed name determines the name and the line, whatever tildes the name
      itself has. */
  lemma {:induction false} SuffixReadsBack(a: Symbol, b: Symbol)
    requires Suffixed(a).qn == Suffixed(b).qn
    ensures a.qn == b.qn && a.startLine == b.startLine
  {
    Text.LastPart('~', a.qn, b.qn, Text.Itoa(a.startLine), Text.Itoa(b.startLine));
    Text.ItoaInjective(a.startLine, b.startLine);
  }

  ghost predicate TildeFree(symbols: seq<Symbol>) {
    forall i | 0 <= i < |symbols| :: '~' !in symbols[i].qn
  }

  lemma {:induction false} SpelledWithTilde(symbols: seq<Symbol>, i: int, j: int)
    ensures Spells(symbols, i, j) ==> '~' in symbols[i].qn
  {
    if Spells(symbols, i, j) {
      assert symbols[i].qn[|symbols[j].qn|] == '~';
    }
  }

  /** In particular, when no name carries a tilde, lines of their own are enough, and needed. */
  lemma {:induction false} DistinctIffOwnLines(before: seq<Symbol>, after: seq<Symbol>)
    requires Renamed(before, after) && TildeFree(before)
    ensures DistinctKeys(after) <==> RepeatsOnOwnLines(before)
  {
    DistinctIff(before, after);
    forall i, j ensures !Spells(before, i, j) {
      SpelledWithTilde(before, i, j);
    }
  }

  /** A run changes nothing if and only if the keys are distinct already; so a second run changes nothing
      exactly when the first made them distinct. */
  lemma {:induction false} UnchangedIffDistinct(before: seq<Symbol>, after: seq<Symbol>)
    requires Renamed(before, after)
    ensures after == before <==> DistinctKeys(before)
  {
    if DistinctKeys(before) {
      assert forall i | 0 <= i < |before| :: !Repeats(before, i);
    }
    forall i, j | 0 <= i < j < |before| && KeyOf(before[i]) == KeyOf(before[j])
      ensures after[j] != before[j]
    {
      assert Repeats(before, j);
      assert |after[j].qn| > |before[j].qn|;
    }
  }

  /** Names can still collide: three declarations of one name, two of them on one line. */
  lemma {:induction false} SameLineStillCollides(a: Symbol, after: seq<Symbol>)
    requires Renamed([a, a, a], after)
    ensures after[0] == a && KeyOf(after[1]) == KeyOf(after[2]) && !DistinctKeys(after)
  {
    assert KeyOf([a, a, a][0]) == KeyOf([a, a, a][1]) == KeyOf([a, a, a][2]);
    assert Repeats([a, a, a], 1) && Repeats([a, a, a], 2);
  }

  /** And so can names on lines of their own: f, f again on line 3, and a third symbol called f~3, as the
      labels of Terraform blocks may spell. */
  lemma {:induction false} SpelledNameCollides(a: Symbol, b: Symbol, c: Symbol, after: seq<Symbol>)
    requires a.qn == b.qn == "f" && b.startLine == 3 && c.qn == "f~3" && a.kind == b.kind == c.kind
    requires Renamed([a, b, c], after)
    ensures RepeatsOnOwnLines([a, b, c]) && !DistinctKeys(after)
  {
    var before := [a, b, c];
    assert KeyOf(before[0]) == KeyOf(before[1]);
    assert Repeats(before, 1) && !Repeats(before, 0) && !Repeats(before, 2);
    assert Text.Itoa(3) == "3";
    assert after[1].qn == "f~3" == after[2].qn;
  }
}
