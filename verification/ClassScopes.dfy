/** The single slot in which `regexExtractor.extract` of internal/ast/extractor.go keeps the class, impl or namespace
    block a line is in: which block holds it on a line, in terms of where the blocks begin and end. */
module ClassScopes {
  import opened Collections

  /** The type declaration a line holds, if any: by the class pattern, which alone is tried before an ended block is
      cleared, or by the interface or enum pattern only. */
  datatype Decl = NoDecl | ByClass | ByOther

  /** The impl or namespace block a line opens, if any. */
  datatype Box = NoBox | Impl | Namespace

  /** A line as the slot sees it. A type declaration takes the slot, an impl or namespace block asks for it, and a
      class whose block ends before its own line empties it (`dropped`). Whatever a line opens ends on line number
      `end`; line numbers are one more than indices. */
  datatype Block = Block(decl: Decl, box: Box, dropped: bool, end: int) {
    predicate Typed() { !decl.NoDecl? }
  }

  predicate Opens(b: Block) { b.Typed() || !b.box.NoBox? }

  /** The block that holds the slot is still open on line n. */
  predicate Kept(blocks: seq<Block>, held: Option<nat>, n: nat)
    requires n < |blocks| && (held.Some? ==> held.value < n)
  {
    held.Some? && n + 1 <= blocks[held.value].end && !blocks[n].dropped
  }

  /** The line whose block holds the slot before line n. */
  function HeldBefore(blocks: seq<Block>, n: nat): (held: Option<nat>)
    requires n <= |blocks|
    ensures held.Some? ==> held.value < n && Opens(blocks[held.value])
    decreases n, 0
  {
    if n == 0 then None else HolderAt(blocks, n - 1)
  }

  /** The line whose block holds the slot on line n, once its patterns have been tried. */
  function HolderAt(blocks: seq<Block>, n: nat): (holder: Option<nat>)
    requires n < |blocks|
    ensures holder.Some? ==> holder.value <= n && Opens(blocks[holder.value])
    decreases n, 1
  {
    var held := HeldBefore(blocks, n);
    if blocks[n].Typed() then Some(n)
    else if Kept(blocks, held, n) then held
    else if !blocks[n].box.NoBox? then Some(n)
    else None
  }

  // ---------- When the slot is the innermost block ----------

  /** The block opened on line j reaches line n. */
  ghost predicate Covers(blocks: seq<Block>, j: int, n: int) {
    0 <= j <= n < |blocks| && Opens(blocks[j]) && (j == n || n + 1 <= blocks[j].end)
  }

  ghost predicate Innermost(blocks: seq<Block>, j: int, n: int) {
    Covers(blocks, j, n) && forall k | j < k <= n :: !Covers(blocks, k, n)
  }

  /** The slot tells the innermost block around line n, or that there is none. */
  ghost predicate Exact(blocks: seq<Block>, n: nat)
    requires n < |blocks|
  {
    match HolderAt(blocks, n)
    case Some(j) => Innermost(blocks, j, n)
    case None => forall j :: !Covers(blocks, j, n)
  }

  /** The innermost block around the line before n. */
  ghost predicate Left(blocks: seq<Block>, k: int, n: int) { Innermost(blocks, k, n - 1) }

  /** An impl or namespace block opens inside the innermost block, which goes on. */
  ghost predicate Refused(blocks: seq<Block>, n: int) {
    && 0 < n < |blocks| && !blocks[n].box.NoBox? && !blocks[n].Typed() && !blocks[n].dropped
    && exists k :: Left(blocks, k, n) && Covers(blocks, k, n)
  }

  /** The innermost block has ended, or is dropped, while an outer one goes on and nothing opens. */
  ghost predicate Forgotten(blocks: seq<Block>, n: int) {
    && 0 < n < |blocks| && !Opens(blocks[n]) && (exists j :: Covers(blocks, j, n))
    && exists k :: Left(blocks, k, n) && (!Covers(blocks, k, n) || blocks[n].dropped)
  }

  lemma {:induction false} CoversBefore(blocks: seq<Block>, j: int, n: int)
    requires Covers(blocks, j, n) && j < n
    ensures Covers(blocks, j, n - 1)
  {
  }

  lemma {:induction false} InnermostUnique(blocks: seq<Block>, j: int, k: int, n: int)
    requires Innermost(blocks, j, n) && Innermost(blocks, k, n)
    ensures j == k
  {
  }

  /** A block that stays innermost when nothing opens. */
  lemma {:induction false} InnermostStays(blocks: seq<Block>, k: int, n: int)
    requires 0 < n < |blocks| && Innermost(blocks, k, n - 1) && Covers(blocks, k, n)
    ensures forall j | Covers(blocks, j, n) :: j <= k || j == n
  {
    forall j | Covers(blocks, j, n) ensures j <= k || j == n {
      if j < n {
        CoversBefore(blocks, j, n);
      }
    }
  }

  /** From one line to the next the slot stays exact unless a block is refused or forgotten. */
  lemma {:induction false} ExactStep(blocks: seq<Block>, n: nat)
    requires 0 < n < |blocks| && Exact(blocks, n - 1)
    ensures Exact(blocks, n) <==> !Refused(blocks, n) && !Forgotten(blocks, n)
  {
    var held := HolderAt(blocks, n - 1);
    if held.None? {
      NothingHeld(blocks, n);
    } else if Kept(blocks, held, n) {
      StillHeld(blocks, n, held.value);
    } else {
      NoLongerHeld(blocks, n, held.value);
    }
  }

  lemma {:induction false} NothingHeld(blocks: seq<Block>, n: nat)
    requires 0 < n < |blocks| && HolderAt(blocks, n - 1).None? && Exact(blocks, n - 1)
    ensures Exact(blocks, n) && !Refused(blocks, n) && !Forgotten(blocks, n)
  {
    forall j | Covers(blocks, j, n) ensures j == n {
      if j < n {
        CoversBefore(blocks, j, n);
      }
    }
  }

  lemma {:induction false} StillHeld(blocks: seq<Block>, n: nat, k: nat)
    requires 0 < n < |blocks| && HolderAt(blocks, n - 1) == Some(k) && Innermost(blocks, k, n - 1)
    requires Kept(blocks, Some(k), n)
    ensures Exact(blocks, n) <==> !Refused(blocks, n) && !Forgotten(blocks, n)
  {
    assert Covers(blocks, k, n);
    InnermostStays(blocks, k, n);
    forall j | Left(blocks, j, n) ensures j == k {
      InnermostUnique(blocks, j, k, n - 1);
    }
    assert Left(blocks, k, n);
    assert HeldBefore(blocks, n) == Some(k);
    if Opens(blocks[n]) {
      assert Innermost(blocks, n, n);
    } else {
      assert HolderAt(blocks, n) == Some(k) && Innermost(blocks, k, n);
    }
  }

  lemma {:induction false} NoLongerHeld(blocks: seq<Block>, n: nat, k: nat)
    requires 0 < n < |blocks| && HolderAt(blocks, n - 1) == Some(k) && Innermost(blocks, k, n - 1)
    requires !Kept(blocks, Some(k), n)
    ensures Exact(blocks, n) <==> !Refused(blocks, n) && !Forgotten(blocks, n)
  {
    forall j | Left(blocks, j, n) ensures j == k {
      InnermostUnique(blocks, j, k, n - 1);
    }
    assert Left(blocks, k, n);
    assert HeldBefore(blocks, n) == Some(k);
    if Opens(blocks[n]) {
      assert HolderAt(blocks, n) == Some(n) && Innermost(blocks, n, n);
    } else {
      assert HolderAt(blocks, n) == None;
    }
  }

  /** On every line the slot holds the innermost type, impl or namespace block around it, if and only if no impl or
      namespace block opens inside a block and no block is left with an outer one going on. */
  lemma {:induction false} SlotIsExact(blocks: seq<Block>)
    ensures (forall n: nat | n < |blocks| :: Exact(blocks, n)) <==>
            (forall n :: !Refused(blocks, n) && !Forgotten(blocks, n))
  {
    if forall n :: !Refused(blocks, n) && !Forgotten(blocks, n) {
      forall n: nat | n < |blocks| ensures Exact(blocks, n) {
        ExactUpTo(blocks, n);
      }
    }
    if forall n: nat | n < |blocks| :: Exact(blocks, n) {
      forall n ensures !Refused(blocks, n) && !Forgotten(blocks, n) {
        if 0 < n < |blocks| {
          assert Exact(blocks, n - 1) && Exact(blocks, n);
          ExactStep(blocks, n);
        }
      }
    }
  }

  lemma {:induction false} ExactUpTo(blocks: seq<Block>, n: nat)
    requires n < |blocks| && forall m :: !Refused(blocks, m) && !Forgotten(blocks, m)
    ensures Exact(blocks, n)
  {
    if n == 0 {
      FirstExact(blocks);
    } else {
      ExactUpTo(blocks, n - 1);
      ExactStep(blocks, n);
    }
  }

  lemma {:induction false} FirstExact(blocks: seq<Block>)
    requires blocks != []
    ensures Exact(blocks, 0)
  {
    assert forall j | Covers(blocks, j, 0) :: j == 0;
  }

  /** Whether or not blocks nest, the latest type declaration holds the slot while its block lasts, unless a class
      that ends before its own line empties it. */
  lemma {:induction false} TypeHolds(blocks: seq<Block>, t: nat, n: nat)
    requires t <= n < |blocks| && blocks[t].Typed() && Covers(blocks, t, n)
    requires forall m | t < m <= n :: !blocks[m].Typed() && !blocks[m].dropped
    ensures HolderAt(blocks, n) == Some(t)
    decreases n
  {
    if t < n {
      CoversBefore(blocks, t, n);
      TypeHolds(blocks, t, n - 1);
    }
  }

  // ---------- When a block counts as a namespace ----------

  /** Line n finds the slot empty, or empties it, before the impl and namespace patterns are tried. */
  predicate Cleared(blocks: seq<Block>, n: nat)
    requires n < |blocks|
  {
    !blocks[n].decl.ByClass? && !Kept(blocks, HeldBefore(blocks, n), n)
  }

  /** The flag that says that functions, not methods, are to be looked for. */
  predicate InNamespace(blocks: seq<Block>, n: nat)
    requires n < |blocks|
  {
    if Cleared(blocks, n) then blocks[n].box.Namespace? else n > 0 && InNamespace(blocks, n - 1)
  }

  /** An empty slot is no namespace. */
  lemma {:induction false} EmptyIsNoNamespace(blocks: seq<Block>, n: nat)
    requires n < |blocks| && HolderAt(blocks, n).None?
    ensures !InNamespace(blocks, n)
  {
  }

  /** A namespace took the slot on line s, and no line since has cleared it. */
  ghost predicate OpenedBy(blocks: seq<Block>, s: int, n: int) {
    && 0 <= s <= n < |blocks| && Cleared(blocks, s) && blocks[s].box.Namespace?
    && forall m | s < m <= n :: !Cleared(blocks, m)
  }

  /** The flag is up if and only if a namespace opened the stretch of lines on which the slot was never cleared. */
  lemma {:induction false} InNamespaceIff(blocks: seq<Block>, n: nat)
    requires n < |blocks|
    ensures InNamespace(blocks, n) <==> exists s :: OpenedBy(blocks, s, n)
  {
    if Cleared(blocks, n) {
      if InNamespace(blocks, n) {
        assert OpenedBy(blocks, n, n);
      }
      forall s | OpenedBy(blocks, s, n) ensures s == n {
      }
    } else {
      if n > 0 {
        InNamespaceIff(blocks, n - 1);
        OpenedStep(blocks, n - 1, n);
      }
      assert !OpenedBy(blocks, n, n);
    }
  }

  lemma {:induction false} OpenedStep(blocks: seq<Block>, m: nat, n: nat)
    requires n == m + 1 < |blocks| && !Cleared(blocks, n)
    ensures (exists s :: OpenedBy(blocks, s, n)) <==> (exists s :: OpenedBy(blocks, s, m))
  {
    if s :| OpenedBy(blocks, s, n) {
      assert OpenedBy(blocks, s, m);
    }
    if s :| OpenedBy(blocks, s, m) {
      assert OpenedBy(blocks, s, n);
    }
  }

  /** What line j opens is a namespace block. */
  ghost predicate IsNamespace(b: Block) { b.box.Namespace? && !b.Typed() }

  ghost predicate FlagExact(blocks: seq<Block>, n: nat)
    requires n < |blocks|
  {
    var holder := HolderAt(blocks, n);
    InNamespace(blocks, n) <==> holder.Some? && IsNamespace(blocks[holder.value])
  }

  /** A type declaration takes the slot over from a namespace without a clearing in between: inside the namespace,
      or by the class pattern on the line after its end, or on one line with it. */
  ghost predicate Inherits(blocks: seq<Block>, n: int) {
    && 0 <= n < |blocks| && blocks[n].Typed()
    && if Cleared(blocks, n) then blocks[n].box.Namespace?
       else var held := HeldBefore(blocks, n); held.Some? && IsNamespace(blocks[held.value])
  }

  lemma {:induction false} FlagStep(blocks: seq<Block>, n: nat)
    requires n < |blocks| && (n > 0 ==> FlagExact(blocks, n - 1))
    ensures FlagExact(blocks, n) <==> !Inherits(blocks, n)
  {
    var held := HeldBefore(blocks, n);
    assert n > 0 ==> (InNamespace(blocks, n - 1) <==> held.Some? && IsNamespace(blocks[held.value]));
  }

  /** The flag tells namespaces from the rest on every line if and only if no type declaration inherits it. */
  lemma {:induction false} FlagIsExact(blocks: seq<Block>)
    ensures (forall n: nat | n < |blocks| :: FlagExact(blocks, n)) <==> (forall n :: !Inherits(blocks, n))
  {
    if forall n :: !Inherits(blocks, n) {
      forall n: nat | n < |blocks| ensures FlagExact(blocks, n) {
        FlagUpTo(blocks, n);
      }
    }
    if forall n: nat | n < |blocks| :: FlagExact(blocks, n) {
      forall n ensures !Inherits(blocks, n) {
        if 0 <= n < |blocks| {
          assert FlagExact(blocks, n) && (n > 0 ==> FlagExact(blocks, n - 1));
          FlagStep(blocks, n);
        }
      }
    }
  }

  lemma {:induction false} FlagUpTo(blocks: seq<Block>, n: nat)
    requires n < |blocks| && forall m :: !Inherits(blocks, m)
    ensures FlagExact(blocks, n)
  {
    if n > 0 {
      FlagUpTo(blocks, n - 1);
    }
    FlagStep(blocks, n);
  }

  // ---------- Slot and flag together, in terms of the blocks ----------

  /** The innermost block around the line before n goes on and is not dropped. */
  ghost predicate GoesOn(blocks: seq<Block>, k: int, n: int) {
    Left(blocks, k, n) && Covers(blocks, k, n) && !blocks[n].dropped
  }

  /** A type declaration on line n is taken for a namespace: the innermost block of the line before is a namespace that
      goes on, or any namespace if the class pattern declares the type, or the line itself opens a namespace where no
      block goes on. */
  ghost predicate TakesOver(blocks: seq<Block>, n: int) {
    && 0 <= n < |blocks| && blocks[n].Typed()
    && if blocks[n].decl.ByClass? then exists k :: Left(blocks, k, n) && IsNamespace(blocks[k])
       else if exists k :: GoesOn(blocks, k, n) then exists k :: GoesOn(blocks, k, n) && IsNamespace(blocks[k])
       else blocks[n].box.Namespace?
  }

  /** Where the slot is exact, inheriting is taking over. */
  lemma {:induction false} InheritsOnSpans(blocks: seq<Block>, n: nat)
    requires n < |blocks| && (n > 0 ==> Exact(blocks, n - 1))
    ensures Inherits(blocks, n) <==> TakesOver(blocks, n)
  {
    var held := HeldBefore(blocks, n);
    forall k ensures Left(blocks, k, n) <==> held == Some(k) {
      if held.Some? && Left(blocks, k, n) {
        InnermostUnique(blocks, k, held.value, n - 1);
      }
    }
    if held.Some? {
      assert Left(blocks, held.value, n);
      assert Kept(blocks, held, n) <==> GoesOn(blocks, held.value, n);
    }
  }

  /** When no block is refused or forgotten, the flag tells namespaces from the rest on every line if and only if no
      type declaration is taken for a namespace. */
  lemma {:induction false} FlagOnSpans(blocks: seq<Block>)
    requires forall n :: !Refused(blocks, n) && !Forgotten(blocks, n)
    ensures (forall n: nat | n < |blocks| :: FlagExact(blocks, n)) <==> (forall n :: !TakesOver(blocks, n))
  {
    FlagIsExact(blocks);
    forall n ensures Inherits(blocks, n) <==> TakesOver(blocks, n) {
      if 0 <= n < |blocks| {
        if n > 0 {
          ExactUpTo(blocks, n - 1);
        }
        InheritsOnSpans(blocks, n);
      }
    }
  }

  /** For all blocks: on every line the slot holds the innermost block and the flag tells whether it is a namespace, if
      and only if no block is refused or forgotten and no type declaration is taken for a namespace. */
  lemma {:induction false} SlotAndFlagExact(blocks: seq<Block>)
    ensures (forall n: nat | n < |blocks| :: Exact(blocks, n) && FlagExact(blocks, n)) <==>
            (forall n :: !Refused(blocks, n) && !Forgotten(blocks, n) && !TakesOver(blocks, n))
  {
    SlotIsExact(blocks);
    if forall n :: !Refused(blocks, n) && !Forgotten(blocks, n) {
      FlagOnSpans(blocks);
    }
  }
}
