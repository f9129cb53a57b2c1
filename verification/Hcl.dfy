/** Terraform blocks: reference edges and nested names, internal/ast/hcl.go. The parsed tree is given, with
    the blocks of a body in source order and each attribute's expression as the traversals it mentions. */
module Hcl {
  import opened Collections
  import opened NameTrees
  import Text

  type Ident = s: string | '.' !in s witness "block"

  datatype Step = Root(name: string) | Attribute(name: string) | Index
  type Traversal = seq<Step>

  /** A missing expression mentions nothing. */
  datatype Attr = Attr(name: string, mentions: seq<Traversal>)

  /** hasBody is false for a nil body, whose attributes and blocks are then empty. */
  datatype Block = Block(typ: Ident, labels: seq<string>, hasBody: bool, attrs: seq<Attr>, blocks: seq<Block>)

  /** hclSanitizeLabel: dots become underscores. */
  function Sanitize(text: string): (s: string)
    ensures |s| == |text| && '.' !in s
    ensures forall i | 0 <= i < |s| :: s[i] == if text[i] == '.' then '_' else text[i]
  {
    if text == [] then [] else [if text[0] == '.' then '_' else text[0]] + Sanitize(text[1..])
  }

  function SanitizeAll(labels: seq<string>): (r: seq<string>)
    ensures |r| == |labels| && Text.DotFree(r)
    ensures forall i | 0 <= i < |r| :: r[i] == Sanitize(labels[i])
  {
    if labels == [] then [] else [Sanitize(labels[0])] + SanitizeAll(labels[1..])
  }

  // ---------- Reference edges ----------

  /** hclBlockQN at the top level: "" for blocks that are no reference source. */
  function TopQN(b: Block): string {
    if (b.typ == "resource" || b.typ == "data") && |b.labels| >= 2 then
      Text.Join([b.typ, Sanitize(b.labels[0]), Sanitize(b.labels[1])])
    else if b.typ == "variable" && |b.labels| >= 1 then "var." + Sanitize(b.labels[0])
    else if (b.typ == "module" || b.typ == "output" || b.typ == "provider") && |b.labels| >= 1 then
      b.typ + "." + Sanitize(b.labels[0])
    else ""
  }

  /** hclTraversalToName: the symbol a traversal refers to, or "". */
  function ToName(t: Traversal): string {
    if |t| < 2 || !t[0].Root? || !t[1].Attribute? then ""
    else
      var root, next := t[0].name, t[1].name;
      if root == "var" || root == "local" || root == "module" then root + "." + next
      else if root == "data" then
        if |t| >= 3 && t[2].Attribute? then "data." + next + "." + t[2].name else ""
      else if root == "each" || root == "count" || root == "self" || root == "path" || root == "terraform" then ""
      else "resource." + root + "." + next
  }

  // ---------- References resolve ----------

  /** Sanitizing a name without dots changes nothing. */
  lemma {:induction false} SanitizeFixed(text: string)
    requires '.' !in text
    ensures Sanitize(text) == text
  {
  }

  /** The roots that are no resource type. */
  ghost predicate Reserved(root: string) {
    || root == "var" || root == "local" || root == "module" || root == "data"
    || root == "each" || root == "count" || root == "self" || root == "path" || root == "terraform"
  }

  /** `t.n` refers to the resource block with these labels, by the very name the block has. */
  lemma {:induction false} ResourceResolves(b: Block, type_: string, name: string, rest: Traversal)
    requires b.typ == "resource" && |b.labels| >= 2 && b.labels[0] == type_ && b.labels[1] == name
    requires '.' !in type_ && '.' !in name && !Reserved(type_)
    ensures ToName([Root(type_), Attribute(name)] + rest) == "resource." + type_ + "." + name == TopQN(b)
  {
    var t := [Root(type_), Attribute(name)] + rest;
    assert t[0] == Root(type_) && t[1] == Attribute(name);
    TwoLabels(b, type_, name);
    assert b.typ + "." + type_ + "." + name == "resource." + type_ + "." + name;
  }

  /** `data.t.n` refers to the data block with these labels. */
  lemma {:induction false} DataResolves(b: Block, type_: string, name: string, rest: Traversal)
    requires b.typ == "data" && |b.labels| >= 2 && b.labels[0] == type_ && b.labels[1] == name
    requires '.' !in type_ && '.' !in name
    ensures ToName([Root("data"), Attribute(type_), Attribute(name)] + rest) == "data." + type_ + "." + name == TopQN(b)
  {
    DataName([Root("data"), Attribute(type_), Attribute(name)] + rest, type_, name);
    TwoLabels(b, type_, name);
    assert b.typ + "." + type_ + "." + name == "data." + type_ + "." + name;
  }

  lemma {:induction false} DataName(t: Traversal, type_: string, name: string)
    requires |t| >= 3 && t[0] == Root("data") && t[1] == Attribute(type_) && t[2] == Attribute(name)
    ensures ToName(t) == "data." + type_ + "." + name
  {
    var root := t[0].name;
    assert root[0] == 'd';
    assert root != "var" && root != "local" && root != "module";
  }

  lemma {:induction false} TwoLabels(b: Block, type_: string, name: string)
    requires (b.typ == "resource" || b.typ == "data") && |b.labels| >= 2 && b.labels[0] == type_ && b.labels[1] == name
    requires '.' !in type_ && '.' !in name
    ensures TopQN(b) == b.typ + "." + type_ + "." + name
  {
    SanitizeFixed(type_);
    SanitizeFixed(name);
    ThreeParts(b.typ, type_, name);
  }

  lemma {:induction false} ThreeParts(a: string, b: string, c: string)
    ensures Text.Join([a, b, c]) == a + "." + b + "." + c
  {
    assert [a, b, c][1..] == [b, c] && [b, c][1..] == [c];
    assert Text.Join([c]) == c;
    assert Text.Join([b, c]) == b + "." + c;
  }

  /** `var.n` refers to the variable block n. */
  lemma {:induction false} VariableResolves(b: Block, name: string, rest: Traversal)
    requires b.typ == "variable" && |b.labels| >= 1 && b.labels[0] == name && '.' !in name
    ensures ToName([Root("var"), Attribute(name)] + rest) == "var." + name == TopQN(b)
  {
    SanitizeFixed(name);
    assert b.typ[0] == 'v';
    assert "var" + "." + name == "var." + name;
  }

  /** `module.n` refers to the module block n. */
  lemma {:induction false} ModuleResolves(b: Block, name: string, rest: Traversal)
    requires b.typ == "module" && |b.labels| >= 1 && b.labels[0] == name && '.' !in name
    ensures ToName([Root("module"), Attribute(name)] + rest) == "module." + name == TopQN(b)
  {
    SanitizeFixed(name);
    assert b.typ[0] == 'm';
    assert "module" + "." + name == "module." + name;
  }

  /** `local.n` refers to the local n. */
  lemma {:induction false} LocalResolves(name: string, rest: Traversal)
    requires '.' !in name
    ensures ToName([Root("local"), Attribute(name)] + rest) == "local." + name == "local." + Sanitize(name)
  {
    SanitizeFixed(name);
    assert "local" + "." + name == "local." + name;
  }

  /** Outputs and providers have names of their own. */
  lemma {:induction false} OtherNames(b: Block)
    requires |b.labels| >= 1 && (b.typ == "output" || b.typ == "provider")
    ensures TopQN(b) == b.typ + "." + Sanitize(b.labels[0])
  {
    assert b.typ[0] == 'o' || b.typ[0] == 'p';
  }

  /** Blocks of any other type, and blocks without the labels their names need, are no reference sources. */
  lemma {:induction false} NoSource(b: Block)
    requires || |b.labels| == 0
             || (|b.labels| == 1 && (b.typ == "resource" || b.typ == "data"))
             || (&& b.typ != "resource" && b.typ != "data" && b.typ != "variable"
                 && b.typ != "module" && b.typ != "output" && b.typ != "provider")
    ensures TopQN(b) == ""
  {
    assert b.typ == "resource" ==> b.typ[0] == 'r';
    assert b.typ == "data" ==> b.typ[0] == 'd';
  }

  /** What refers to nothing: one step alone, a second step that is no attribute, `data` without two attributes, and
      the names Terraform itself provides. */
  lemma {:induction false} ResolvesNothing(t: Traversal)
    requires || |t| < 2 || !t[0].Root? || !t[1].Attribute?
             || t[0].name == "each" || t[0].name == "count" || t[0].name == "self"
             || t[0].name == "path" || t[0].name == "terraform"
             || (t[0].name == "data" && (|t| < 3 || !t[2].Attribute?))
    ensures ToName(t) == ""
  {
  }

  /** A block whose attribute mentions another block has an edge to it, by the other's own name. */
  lemma {:induction false} MentionHasEdge(b: Block, target: Block, a: Attr, t: Traversal, edges: seq<Edge>)
    requires b.hasBody && a in b.attrs && t in a.mentions
    requires TopQN(target) != "" && ToName(t) == TopQN(target) && TopQN(b) != TopQN(target)
    requires EdgesOf(b, TopQN(b), edges)
    ensures Edge(TopQN(b), TopQN(target)) in edges
  {
    assert Mentions(b.attrs, TopQN(target));
    assert RefersTo(b, TopQN(target));
  }

  datatype Edge = Edge(from: string, to: string)

  /** Some traversal of these attributes refers to name. */
  ghost predicate Mentions(attrs: seq<Attr>, name: string) {
    name != "" && exists a, t :: a in attrs && t in a.mentions && ToName(t) == name
  }

  /** Some traversal in the block, at any depth, refers to name. */
  ghost predicate RefersTo(b: Block, name: string) {
    b.hasBody && (Mentions(b.attrs, name) || exists sub :: sub in b.blocks && RefersTo(sub, name))
  }

  /** Name is mentioned at the block's own level or in one of its first n sub-blocks. */
  ghost predicate RefersBefore(b: Block, n: nat, name: string)
    requires n <= |b.blocks|
  {
    Mentions(b.attrs, name) || exists k :: 0 <= k < n && RefersTo(b.blocks[k], name)
  }

  /** A block refers to what its own attributes mention and to what the blocks in it refer to. */
  lemma {:induction false} RefersForms(b: Block, name: string)
    ensures RefersTo(b, name) <==>
            && b.hasBody
            && (|| (name != "" && exists a, t :: a in b.attrs && t in a.mentions && ToName(t) == name)
                || exists sub :: sub in b.blocks && RefersTo(sub, name))
  {
  }

  /** No name other than qn is mentioned at two levels, or in two sub-blocks, of the block. */
  ghost predicate MentionedOnce(b: Block, qn: string) {
    b.hasBody ==> forall i | 0 <= i < |b.blocks| :: MentionedOnce(b.blocks[i], qn) && FreshAt(b, i, qn)
  }

  /** Sub-block i mentions nothing, except qn, that comes earlier in the block. */
  ghost predicate FreshAt(b: Block, i: nat, qn: string)
    requires i < |b.blocks|
  {
    forall name | name != qn && RefersTo(b.blocks[i], name) :: !RefersBefore(b, i, name)
  }

  /** The emit loop over the attributes of one level. */
  method EmitAll(attrs: seq<Attr>, qn: string) returns (out: seq<Edge>)
    ensures NoDuplicates(out)
    ensures forall e :: e in out <==> e.from == qn && e.to != qn && Mentions(attrs, e.to)
  {
    out := [];
    var seen: set<string> := {};
    for i := 0 to |attrs|
      invariant NoDuplicates(out)
      invariant forall e :: e in out <==> e.from == qn && e.to in seen
      invariant forall name :: name in seen <==> name != qn && Mentions(attrs[..i], name)
    {
      var ts := attrs[i].mentions;
      assert attrs[..i + 1] == attrs[..i] + [attrs[i]];
      for j := 0 to |ts|
        invariant NoDuplicates(out)
        invariant forall e :: e in out <==> e.from == qn && e.to in seen
        invariant forall name :: name in seen <==>
          name != qn && name != "" && (Mentions(attrs[..i], name) || exists t :: t in ts[..j] && ToName(t) == name)
      {
        assert ts[..j + 1] == ts[..j] + [ts[j]];
        var to := ToName(ts[j]);
        if to != "" && to != qn && to !in seen {
          seen := seen + {to};
          out := out + [Edge(qn, to)];
        }
      }
      assert ts[..|ts|] == ts;
    }
    assert attrs[..|attrs|] == attrs;
  }

  /** The edges run from qn to every other name the block mentions. */
  ghost predicate EdgesOf(b: Block, qn: string, edges: seq<Edge>) {
    forall e :: e in edges <==> e.from == qn && e.to != qn && RefersTo(b, e.to)
  }

  ghost predicate EdgesBefore(b: Block, n: nat, qn: string, edges: seq<Edge>)
    requires n <= |b.blocks|
  {
    forall e :: e in edges <==> e.from == qn && e.to != qn && RefersBefore(b, n, e.to)
  }

  /** hclCollectReferences below the top level, where every edge starts at the top-level block. The edge
      list repeats itself exactly when a name is mentioned at two places. */
  method CollectNested(b: Block, qn: string) returns (out: seq<Edge>)
    requires qn != ""
    ensures EdgesOf(b, qn, out)
    ensures NoDuplicates(out) <==> MentionedOnce(b, qn)
    decreases b
  {
    if !b.hasBody {
      return [];
    }
    out := EmitAll(b.attrs, qn);
    for i := 0 to |b.blocks|
      invariant EdgesBefore(b, i, qn, out)
      invariant NoDuplicates(out) <==> forall k | 0 <= k < i :: MentionedOnce(b.blocks[k], qn) && FreshAt(b, k, qn)
    {
      var more := CollectNested(b.blocks[i], qn);
      AppendDuplicates(out, more);
      CommonEdges(b, i, qn, out, more);
      out := out + more;
    }
    assert forall name :: RefersTo(b, name) <==> RefersBefore(b, |b.blocks|, name) by { ReferencesSplit(b); }
  }

  lemma {:induction false} ReferencesSplit(b: Block)
    requires b.hasBody
    ensures forall name :: RefersTo(b, name) <==> RefersBefore(b, |b.blocks|, name)
  {
    forall name ensures RefersTo(b, name) <==> RefersBefore(b, |b.blocks|, name) {
      if sub :| sub in b.blocks && RefersTo(sub, name) {
        var k :| 0 <= k < |b.blocks| && b.blocks[k] == sub;
      }
      if k :| 0 <= k < |b.blocks| && RefersTo(b.blocks[k], name) {
        assert b.blocks[k] in b.blocks;
      }
    }
  }

  /** The lists of two steps share an edge exactly when they share a name. */
  lemma {:induction false} CommonEdges(b: Block, i: nat, qn: string, out: seq<Edge>, more: seq<Edge>)
    requires i < |b.blocks|
    requires EdgesBefore(b, i, qn, out)
    requires EdgesOf(b.blocks[i], qn, more)
    ensures (forall e :: !(e in out && e in more)) <==> FreshAt(b, i, qn)
    ensures EdgesBefore(b, i + 1, qn, out + more)
  {
    forall name | name != qn && RefersTo(b.blocks[i], name) && RefersBefore(b, i, name)
      ensures exists e :: e in out && e in more
    {
      assert Edge(qn, name) in out && Edge(qn, name) in more;
    }
  }

  /** hclCollectReferences on a top-level block. For a block that is a reference source, the edges run from
      it to exactly the names mentioned anywhere inside, itself excepted; for `locals`, from each assignment;
      for any other block there are none. */
  method CollectReferences(b: Block) returns (out: seq<Edge>)
    ensures b.typ != "locals" && TopQN(b) != "" ==> EdgesOf(b, TopQN(b), out)
    ensures b.typ != "locals" && TopQN(b) != "" ==> (NoDuplicates(out) <==> MentionedOnce(b, TopQN(b)))
    ensures b.typ != "locals" && TopQN(b) == "" ==> out == []
    ensures b.typ == "locals" ==> forall e :: e in out <==>
              b.hasBody && exists a ::
                a in b.attrs && e.from == "local." + Sanitize(a.name) && e.to != e.from && Mentions([a], e.to)
    ensures forall e | e in out :: e.from != e.to
  {
    out := [];
    if !b.hasBody {
      return;
    }
    if b.typ == "locals" {
      for i := 0 to |b.attrs|
        invariant forall e :: e in out <==>
          exists a ::
            a in b.attrs[..i] && e.from == "local." + Sanitize(a.name) && e.to != e.from && Mentions([a], e.to)
      {
        var a := b.attrs[i];
        assert b.attrs[..i + 1] == b.attrs[..i] + [a];
        var more := EmitAll([a], "local." + Sanitize(a.name));
        out := out + more;
      }
      assert b.attrs[..|b.attrs|] == b.attrs;
      return;
    }
    var qn := TopQN(b);
    if qn == "" {
      return;
    }
    out := CollectNested(b, qn);
  }

  // ---------- Names of nested blocks ----------

  /** hclBlockKey. */
  function BlockKey(b: Block): string {
    if b.labels == [] then b.typ else b.typ + "." + Text.Join(SanitizeAll(b.labels))
  }

  /** The type and sanitized labels, as the parts of a dotted name. */
  function KeyParts(b: Block): (parts: seq<string>)
    ensures |parts| >= 1 && Text.DotFree(parts)
  {
    [b.typ] + SanitizeAll(b.labels)
  }

  lemma {:induction false} KeyIsDotted(b: Block)
    ensures BlockKey(b) == Text.Join(KeyParts(b))
  {
    assert KeyParts(b)[1..] == SanitizeAll(b.labels);
  }

  /** Keys are equal exactly when type and sanitized labels are. */
  lemma {:induction false} KeysEqual(a: Block, b: Block)
    ensures BlockKey(a) == BlockKey(b) <==> a.typ == b.typ && SanitizeAll(a.labels) == SanitizeAll(b.labels)
  {
    KeyIsDotted(a);
    KeyIsDotted(b);
    if BlockKey(a) == BlockKey(b) {
      Text.JoinInjective(KeyParts(a), KeyParts(b));
      assert a.typ == KeyParts(a)[0] && b.typ == KeyParts(b)[0];
      assert SanitizeAll(a.labels) == KeyParts(a)[1..] && SanitizeAll(b.labels) == KeyParts(b)[1..];
    }
  }

  function Keys(blocks: seq<Block>): (keys: seq<string>)
    ensures |keys| == |blocks|
    ensures forall i | 0 <= i < |keys| :: keys[i] == BlockKey(blocks[i])
  {
    seq(|blocks|, i requires 0 <= i < |blocks| => BlockKey(blocks[i]))
  }

  /** Block i shares its key with a sibling. */
  predicate Numbered(blocks: seq<Block>, i: nat)
    requires i < |blocks|
  {
    Count(Keys(blocks), Keys(blocks)[i], |blocks|) > 1
  }

  /** How many earlier siblings share block i's key. */
  function Ordinal(blocks: seq<Block>, i: nat): nat
    requires i < |blocks|
  {
    Count(Keys(blocks), Keys(blocks)[i], i)
  }

  function SiblingQN(parent: string, blocks: seq<Block>, i: nat): string
    requires i < |blocks|
  {
    var qn := parent + "." + BlockKey(blocks[i]);
    if Numbered(blocks, i) then qn + "." + Text.Itoa(Ordinal(blocks, i)) else qn
  }

  /** The qualified names below a block, each block before its own nested ones. */
  function QNsFrom(blocks: seq<Block>, parent: string, i: nat): seq<string>
    requires i <= |blocks|
    decreases blocks, |blocks| - i
  {
    if i == |blocks| then []
    else
      var qn := SiblingQN(parent, blocks, i);
      [qn] + (if blocks[i].hasBody then QNsFrom(blocks[i].blocks, qn, 0) else []) + QNsFrom(blocks, parent, i + 1)
  }

  /** Name block i and count it. */
  method NameOne(blocks: seq<Block>, parent: string, i: nat, keys: seq<string>, count: map<string, nat>,
                 idx: map<string, nat>)
    returns (qn: string, idx': map<string, nat>)
    requires i < |blocks| && keys == Keys(blocks) && Tallies(count, keys, |keys|) && Tallies(idx, keys, i)
    ensures qn == SiblingQN(parent, blocks, i) && Tallies(idx', keys, i + 1)
  {
    qn := parent + "." + keys[i];
    assert Tally(count, keys[i]) == Count(keys, keys[i], |keys|) && Tally(idx, keys[i]) == Ordinal(blocks, i);
    if Tally(count, keys[i]) > 1 {
      qn := qn + "." + Text.Itoa(Tally(idx, keys[i]));
    }
    TallyStep(idx, keys, i);
    idx' := idx[keys[i] := Tally(idx, keys[i]) + 1];
  }

  /** hclNestedBlockSymbols: count the keys, then name the blocks in source order. */
  method NestedBlockSymbols(blocks: seq<Block>, parent: string) returns (out: seq<string>)
    ensures out == QNsFrom(blocks, parent, 0)
    decreases blocks
  {
    var keys := Keys(blocks);
    var count := CountKeys(keys);
    var idx: map<string, nat> := map[];
    out := [];
    for i := 0 to |blocks|
      invariant Tallies(idx, keys, i)
      invariant out + QNsFrom(blocks, parent, i) == QNsFrom(blocks, parent, 0)
    {
      var qn;
      qn, idx := NameOne(blocks, parent, i, keys, count, idx);
      var nested := [];
      if blocks[i].hasBody {
        nested := NestedBlockSymbols(blocks[i].blocks, qn);
      }
      NamesStep(blocks, parent, i, qn, nested, out);
      out := out + [qn] + nested;
    }
  }

  lemma {:induction false} NamesStep(blocks: seq<Block>, parent: string, i: nat, qn: string, nested: seq<string>,
                                     done: seq<string>)
    requires i < |blocks| && qn == SiblingQN(parent, blocks, i)
    requires nested == if blocks[i].hasBody then QNsFrom(blocks[i].blocks, qn, 0) else []
    ensures done + QNsFrom(blocks, parent, i) == done + [qn] + nested + QNsFrom(blocks, parent, i + 1)
  {
    QNsNext(blocks, parent, i);
    Regroup(done, [qn], nested, QNsFrom(blocks, parent, i + 1));
  }

  lemma {:induction false} Regroup(a: seq<string>, b: seq<string>, c: seq<string>, d: seq<string>)
    ensures a + ((b + c) + d) == a + b + c + d
  {
  }

  // ---------- When sibling names are distinct ----------

  /** Same-key blocks are numbered upwards from 0 in source order, without gaps. */
  lemma {:induction false} OrdinalsAreConsecutive(blocks: seq<Block>, i: nat, m: nat) returns (j: nat)
    requires i < |blocks| && m < Count(Keys(blocks), Keys(blocks)[i], |blocks|)
    ensures j < |blocks| && BlockKey(blocks[j]) == BlockKey(blocks[i]) && Ordinal(blocks, j) == m
  {
    j := CountAttained(Keys(blocks), Keys(blocks)[i], |blocks|, m);
  }

  lemma {:induction false} OrdinalsIncrease(blocks: seq<Block>, i: nat, j: nat)
    requires i < j < |blocks| && BlockKey(blocks[i]) == BlockKey(blocks[j])
    ensures Ordinal(blocks, i) < Ordinal(blocks, j)
    ensures Numbered(blocks, i) && Numbered(blocks, j)
  {
    CountGrows(Keys(blocks), BlockKey(blocks[i]), i, j);
    CountGrows(Keys(blocks), BlockKey(blocks[i]), j, |blocks|);
  }

  /** The parts of a sibling's name below its parent. */
  function NameParts(blocks: seq<Block>, i: nat): (parts: seq<string>)
    requires i < |blocks|
    ensures |parts| >= 1 && Text.DotFree(parts)
  {
    KeyParts(blocks[i]) + if Numbered(blocks, i) then [Text.Itoa(Ordinal(blocks, i))] else []
  }

  lemma {:induction false} QNIsDotted(parent: string, blocks: seq<Block>, i: nat)
    requires i < |blocks|
    ensures SiblingQN(parent, blocks, i) == parent + "." + Text.Join(NameParts(blocks, i))
  {
    var parts := KeyParts(blocks[i]);
    KeyIsDotted(blocks[i]);
    if Numbered(blocks, i) {
      var number := Text.Itoa(Ordinal(blocks, i));
      Text.JoinAppend(parts, [number]);
      assert parent + "." + Text.Join(parts) + "." + number == parent + "." + (Text.Join(parts) + "." + number);
    } else {
      assert parts + [] == parts;
    }
  }

  lemma {:induction false} QNsEqual(parent: string, blocks: seq<Block>, i: nat, j: nat)
    requires i < |blocks| && j < |blocks|
    ensures SiblingQN(parent, blocks, i) == SiblingQN(parent, blocks, j) <==>
            NameParts(blocks, i) == NameParts(blocks, j)
  {
    QNIsDotted(parent, blocks, i);
    QNIsDotted(parent, blocks, j);
    var p, q := Text.Join(NameParts(blocks, i)), Text.Join(NameParts(blocks, j));
    if parent + "." + p == parent + "." + q {
      assert p == (parent + "." + p)[|parent| + 1..] && q == (parent + "." + q)[|parent| + 1..];
      Text.JoinInjective(NameParts(blocks, i), NameParts(blocks, j));
    }
  }

  /** An unnumbered block j spells out the number of block i: same type, and i's labels followed by it. */
  ghost predicate Clashes(blocks: seq<Block>, i: nat, j: nat) {
    && i < |blocks| && j < |blocks| && Numbered(blocks, i) && !Numbered(blocks, j)
    && blocks[j].typ == blocks[i].typ
    && SanitizeAll(blocks[j].labels) == SanitizeAll(blocks[i].labels) + [Text.Itoa(Ordinal(blocks, i))]
  }

  ghost predicate DistinctSiblings(parent: string, blocks: seq<Block>) {
    forall i: nat, j: nat | i < j < |blocks| :: SiblingQN(parent, blocks, i) != SiblingQN(parent, blocks, j)
  }

  lemma {:induction false} PartsEqual(blocks: seq<Block>, i: nat, j: nat)
    requires i < |blocks| && j < |blocks| && i != j
    ensures NameParts(blocks, i) == NameParts(blocks, j) <==> Clashes(blocks, i, j) || Clashes(blocks, j, i)
  {
    var p, q := NameParts(blocks, i), NameParts(blocks, j);
    var a, b := KeyParts(blocks[i]), KeyParts(blocks[j]);
    KeysEqual(blocks[i], blocks[j]);
    if BlockKey(blocks[i]) == BlockKey(blocks[j]) {
      if i < j { OrdinalsIncrease(blocks, i, j); } else { OrdinalsIncrease(blocks, j, i); }
      assert p[..|p| - 1] == a && q[..|q| - 1] == b && p[|p| - 1] == Text.Itoa(Ordinal(blocks, i)) &&
             q[|q| - 1] == Text.Itoa(Ordinal(blocks, j));
      if p == q {
        Text.ItoaInjective(Ordinal(blocks, i), Ordinal(blocks, j));
      }
    } else {
      KeyIsDotted(blocks[i]);
      KeyIsDotted(blocks[j]);
      SameNumbering(blocks, i, j);
      ClashParts(blocks, i, j);
      ClashParts(blocks, j, i);
    }
  }

  /** Blocks that are both numbered, or both not, only share a name if they share a key. */
  lemma {:induction false} SameNumbering(blocks: seq<Block>, i: nat, j: nat)
    requires i < |blocks| && j < |blocks|
    ensures Numbered(blocks, i) == Numbered(blocks, j) && NameParts(blocks, i) == NameParts(blocks, j) ==>
              KeyParts(blocks[i]) == KeyParts(blocks[j])
  {
    var p, q := NameParts(blocks, i), NameParts(blocks, j);
    if Numbered(blocks, i) && Numbered(blocks, j) && p == q {
      assert KeyParts(blocks[i]) == p[..|p| - 1] && KeyParts(blocks[j]) == q[..|q| - 1];
    } else if !Numbered(blocks, i) && !Numbered(blocks, j) {
      assert p == KeyParts(blocks[i]) && q == KeyParts(blocks[j]);
    }
  }

  lemma {:induction false} ClashParts(blocks: seq<Block>, i: nat, j: nat)
    requires i < |blocks| && j < |blocks|
    ensures Numbered(blocks, i) && !Numbered(blocks, j) ==>
              (NameParts(blocks, i) == NameParts(blocks, j) <==> Clashes(blocks, i, j))
  {
    var number := [Text.Itoa(Ordinal(blocks, i))];
    var a, b := SanitizeAll(blocks[i].labels), SanitizeAll(blocks[j].labels);
    assert KeyParts(blocks[i]) + number == [blocks[i].typ] + (a + number);
    assert ([blocks[i].typ] + (a + number))[1..] == a + number;
    assert ([blocks[j].typ] + b)[1..] == b;
    assert KeyParts(blocks[j]) + [] == KeyParts(blocks[j]);
  }

  /** Sibling names are pairwise distinct if and only if no block spells out another's number in its labels. */
  lemma {:induction false} SiblingsDistinctIff(parent: string, blocks: seq<Block>)
    ensures DistinctSiblings(parent, blocks) <==> forall i: nat, j: nat :: !Clashes(blocks, i, j)
  {
    forall i: nat, j: nat | i < |blocks| && j < |blocks| && i != j
      ensures SiblingQN(parent, blocks, i) == SiblingQN(parent, blocks, j) <==>
              Clashes(blocks, i, j) || Clashes(blocks, j, i)
    {
      QNsEqual(parent, blocks, i, j);
      PartsEqual(blocks, i, j);
    }
    forall i: nat, j: nat | Clashes(blocks, i, j)
      ensures i != j
    {
    }
  }

  ghost predicate EndsInNumeral(b: Block) {
    b.labels != [] && exists n: nat :: b.labels[|b.labels| - 1] == Text.Itoa(n)
  }

  /** In particular they are distinct when no last label is a decimal numeral. */
  lemma {:induction false} SiblingsDistinct(parent: string, blocks: seq<Block>)
    requires forall j | 0 <= j < |blocks| :: !EndsInNumeral(blocks[j])
    ensures DistinctSiblings(parent, blocks)
  {
    forall i: nat, j: nat ensures !Clashes(blocks, i, j) {
      ClashEndsInNumeral(blocks, i, j);
    }
    SiblingsDistinctIff(parent, blocks);
  }

  lemma {:induction false} ClashEndsInNumeral(blocks: seq<Block>, i: nat, j: nat)
    ensures Clashes(blocks, i, j) ==> EndsInNumeral(blocks[j])
  {
    if Clashes(blocks, i, j) {
      var labels, n := blocks[j].labels, Ordinal(blocks, i);
      var sanitized := SanitizeAll(labels);
      assert sanitized[|sanitized| - 1] == Text.Itoa(n);
      LastLabel(labels);
      NumeralUnsanitized(labels[|labels| - 1], n);
    }
  }

  lemma {:induction false} LastLabel(labels: seq<string>)
    requires labels != []
    ensures SanitizeAll(labels)[|labels| - 1] == Sanitize(labels[|labels| - 1])
  {
    if |labels| > 1 {
      LastLabel(labels[1..]);
    }
  }

  /** Only a numeral sanitizes to a numeral. */
  lemma {:induction false} NumeralUnsanitized(text: string, n: nat)
    requires Sanitize(text) == Text.Itoa(n)
    ensures text == Text.Itoa(n)
  {
    assert forall i | 0 <= i < |text| :: Sanitize(text)[i] != '_';
  }

  /** Two plain blocks of one type and a third labelled with the number of the first share a name. */
  lemma {:induction false} NumberedSiblingCollides(parent: string, plain: Block, numbered: Block)
    requires plain.labels == [] && numbered.labels == ["0"] && numbered.typ == plain.typ
    ensures SiblingQN(parent, [plain, plain, numbered], 0) == SiblingQN(parent, [plain, plain, numbered], 2)
  {
    var blocks := [plain, plain, numbered];
    var keys := Keys(blocks);
    KeysEqual(plain, numbered);
    assert keys[0] == keys[1] == BlockKey(plain) && keys[2] == BlockKey(numbered);
    assert |SanitizeAll(plain.labels)| != |SanitizeAll(numbered.labels)|;
    assert Count(keys, keys[0], 2) == Count(keys, keys[0], 1) + 1 == 2 && Count(keys, keys[0], 3) == 2;
    assert Count(keys, keys[2], 1) == 0 && Count(keys, keys[2], 2) == 0 && Count(keys, keys[2], 3) == 1;
    assert Text.Itoa(0) == "0" && Sanitize("0") == "0" && SanitizeAll(["0"]) == ["0"];
    assert Clashes(blocks, 0, 2);
    PartsEqual(blocks, 0, 2);
    QNsEqual(parent, blocks, 0, 2);
  }

  // ---------- When all names below a block are distinct ----------

  /** The blocks as a tree of names. */
  ghost function Trees(blocks: seq<Block>): (ts: seq<Named>)
    ensures |ts| == |blocks|
    ensures forall i | 0 <= i < |ts| :: ts[i].parts == NameParts(blocks, i)
    decreases blocks
  {
    seq(|blocks|, i requires 0 <= i < |blocks| => Tree(blocks, i))
  }

  ghost function Tree(blocks: seq<Block>, i: nat): (t: Named)
    requires i < |blocks|
    ensures t.parts == NameParts(blocks, i)
    decreases blocks, 0
  {
    Named(NameParts(blocks, i), if blocks[i].hasBody then Trees(blocks[i].blocks) else [])
  }

  function NameOf(top: string, parts: seq<string>): string {
    if parts == [] then top else top + "." + Text.Join(parts)
  }

  lemma {:induction false} NameOfInjective(top: string, p: seq<string>, q: seq<string>)
    requires p != [] && q != [] && Text.DotFree(p) && Text.DotFree(q) && NameOf(top, p) == NameOf(top, q)
    ensures p == q
  {
    var s, t := Text.Join(p), Text.Join(q);
    assert s == (top + "." + s)[|top| + 1..] && t == (top + "." + t)[|top| + 1..];
    Text.JoinInjective(p, q);
  }

  lemma {:induction false} SiblingName(top: string, prefix: seq<string>, blocks: seq<Block>, i: nat)
    requires i < |blocks|
    ensures SiblingQN(NameOf(top, prefix), blocks, i) == NameOf(top, prefix + NameParts(blocks, i))
  {
    var parts := NameParts(blocks, i);
    QNIsDotted(NameOf(top, prefix), blocks, i);
    if prefix == [] {
      assert prefix + parts == parts;
    } else {
      Text.JoinAppend(prefix, parts);
      var s, t := Text.Join(prefix), Text.Join(parts);
      assert top + "." + s + "." + t == top + "." + (s + "." + t);
    }
  }

  ghost predicate SpelledBy(top: string, name: string, parts: seq<string>) {
    parts != [] && Text.DotFree(parts) && name == NameOf(top, parts)
  }

  /** The names are spelled by their parts. */
  ghost predicate Spelled(top: string, names: seq<string>, parts: seq<seq<string>>) {
    |names| == |parts| && forall k | 0 <= k < |names| :: SpelledBy(top, names[k], parts[k])
  }

  lemma {:induction false} SpelledAppend(top: string, a: seq<string>, p: seq<seq<string>>, b: seq<string>,
                                         q: seq<seq<string>>)
    requires Spelled(top, a, p) && Spelled(top, b, q)
    ensures Spelled(top, a + b, p + q)
  {
    forall k | 0 <= k < |a + b| ensures SpelledBy(top, (a + b)[k], (p + q)[k]) {
      assert k >= |a| ==> (a + b)[k] == b[k - |a|] && (p + q)[k] == q[k - |a|];
    }
  }

  /** The names of block i and of what is in it. */
  ghost function QNsOf(blocks: seq<Block>, parent: string, i: nat): seq<string>
    requires i < |blocks|
  {
    var qn := SiblingQN(parent, blocks, i);
    [qn] + if blocks[i].hasBody then QNsFrom(blocks[i].blocks, qn, 0) else []
  }

  lemma {:induction false} QNsNext(blocks: seq<Block>, parent: string, i: nat)
    requires i < |blocks|
    ensures QNsFrom(blocks, parent, i) == QNsOf(blocks, parent, i) + QNsFrom(blocks, parent, i + 1)
  {
  }

  // ---------- The names, spelled out ----------

  /** A block is numbered if and only if another block of the list has its key. */
  lemma {:induction false} NumberedIff(blocks: seq<Block>, i: nat)
    requires i < |blocks|
    ensures Numbered(blocks, i) <==>
            exists j :: 0 <= j < |blocks| && j != i && BlockKey(blocks[j]) == BlockKey(blocks[i])
  {
    if Numbered(blocks, i) {
      var first := OrdinalsAreConsecutive(blocks, i, 0);
      var second := OrdinalsAreConsecutive(blocks, i, 1);
      assert first != second;
      var j := if first == i then second else first;
      assert BlockKey(blocks[j]) == BlockKey(blocks[i]);
    }
    forall j: nat | j < |blocks| && j != i && BlockKey(blocks[j]) == BlockKey(blocks[i])
      ensures Numbered(blocks, i)
    {
      if i < j {
        OrdinalsIncrease(blocks, i, j);
      } else {
        OrdinalsIncrease(blocks, j, i);
      }
    }
  }

  /** The name of a nested block: the parent, the type, the labels without dots, and its number if it has one. */
  lemma {:induction false} SiblingQNIs(parent: string, blocks: seq<Block>, i: nat)
    requires i < |blocks|
    ensures SiblingQN(parent, blocks, i) ==
            parent + "." + Text.Join([blocks[i].typ] + SanitizeAll(blocks[i].labels)) +
            if Numbered(blocks, i) then "." + Text.Itoa(Ordinal(blocks, i)) else ""
  {
    KeyIsDotted(blocks[i]);
    var name := parent + "." + Text.Join(KeyParts(blocks[i]));
    var number := Text.Itoa(Ordinal(blocks, i));
    assert name + "." + number == name + ("." + number);
  }

  /** The names below a block: those of its blocks, and those below each. */
  lemma {:induction false} QNsMembers(blocks: seq<Block>, parent: string, i: nat, x: string)
    requires i <= |blocks|
    ensures x in QNsFrom(blocks, parent, i) <==> NamedFrom(blocks, parent, i, x)
    decreases |blocks| - i
  {
    if i < |blocks| {
      QNsMembers(blocks, parent, i + 1, x);
      QNsNext(blocks, parent, i);
      InQNsOf(blocks, parent, i, x);
      NamedNext(blocks, parent, i, x);
    }
  }

  /** x is the name of block i or a later one, or a name below it. */
  ghost predicate NamedFrom(blocks: seq<Block>, parent: string, i: int, x: string) {
    exists k :: i <= k && NamedBy(blocks, parent, k, x)
  }

  lemma {:induction false} NamedNext(blocks: seq<Block>, parent: string, i: nat, x: string)
    ensures NamedFrom(blocks, parent, i, x) <==>
            NamedBy(blocks, parent, i, x) || NamedFrom(blocks, parent, i + 1, x)
  {
    if k :| i <= k && NamedBy(blocks, parent, k, x) {
      assert k == i || i + 1 <= k;
    }
  }

  /** x is the name of block k, or a name below it. */
  ghost predicate NamedBy(blocks: seq<Block>, parent: string, k: int, x: string) {
    && 0 <= k < |blocks|
    && (|| x == SiblingQN(parent, blocks, k)
        || (blocks[k].hasBody && x in QNsFrom(blocks[k].blocks, SiblingQN(parent, blocks, k), 0)))
  }

  lemma {:induction false} InQNsOf(blocks: seq<Block>, parent: string, i: nat, x: string)
    requires i < |blocks|
    ensures x in QNsOf(blocks, parent, i) <==> NamedBy(blocks, parent, i, x)
  {
  }

  /** The emitted names are the full names of the tree. */
  lemma {:induction false} NamesOfTrees(blocks: seq<Block>, top: string, prefix: seq<string>, i: nat)
    requires i <= |blocks| && Text.DotFree(prefix)
    ensures Spelled(top, QNsFrom(blocks, NameOf(top, prefix), i), NamesFrom(prefix, Trees(blocks), i))
    decreases blocks, |blocks| - i, 1
  {
    if i < |blocks| {
      NamesOfTree(blocks, top, prefix, i);
      NamesOfTrees(blocks, top, prefix, i + 1);
      QNsNext(blocks, NameOf(top, prefix), i);
      SpelledAppend(top, QNsOf(blocks, NameOf(top, prefix), i), Names(prefix, Trees(blocks)[i]),
                    QNsFrom(blocks, NameOf(top, prefix), i + 1), NamesFrom(prefix, Trees(blocks), i + 1));
    }
  }

  lemma {:induction false} NamesOfTree(blocks: seq<Block>, top: string, prefix: seq<string>, i: nat)
    requires i < |blocks| && Text.DotFree(prefix)
    ensures Spelled(top, QNsOf(blocks, NameOf(top, prefix), i), Names(prefix, Trees(blocks)[i]))
    decreases blocks, |blocks| - i, 0
  {
    var p := prefix + NameParts(blocks, i);
    SiblingName(top, prefix, blocks, i);
    TreeOf(blocks, i);
    assert SpelledBy(top, NameOf(top, p), p);
    if blocks[i].hasBody {
      NamesOfTrees(blocks[i].blocks, top, p, 0);
      SpelledAppend(top, [NameOf(top, p)], [p], QNsFrom(blocks[i].blocks, NameOf(top, p), 0),
                    NamesFrom(p, Trees(blocks[i].blocks), 0));
    }
  }

  lemma {:induction false} TreeOf(blocks: seq<Block>, i: nat)
    requires i < |blocks|
    ensures Trees(blocks)[i] ==
            Named(NameParts(blocks, i), if blocks[i].hasBody then Trees(blocks[i].blocks) else [])
  {
  }

  lemma {:induction false} SameDuplicates(top: string, names: seq<string>, parts: seq<seq<string>>)
    requires Spelled(top, names, parts)
    ensures NoDuplicates(names) <==> NoDuplicates(parts)
  {
    forall i, j | 0 <= i < j < |names| ensures names[i] == names[j] <==> parts[i] == parts[j] {
      assert SpelledBy(top, names[i], parts[i]) && SpelledBy(top, names[j], parts[j]);
      if names[i] == names[j] {
        NameOfInjective(top, parts[i], parts[j]);
      }
    }
  }

  /** Two siblings are apart if and only if neither spells out the other's number and neither shadows the other: the
      labels of one do not go on with what blocks inside the other spell. */
  lemma {:induction false} SiblingsApartIff(blocks: seq<Block>, i: nat, j: nat)
    requires i < |blocks| && j < |blocks| && i != j
    ensures var s, t := Trees(blocks)[i], Trees(blocks)[j];
            Apart(s, t) <==> !Clashes(blocks, i, j) && !Clashes(blocks, j, i) && !Shadows(s, t) && !Shadows(t, s)
  {
    PartsEqual(blocks, i, j);
  }

  /** All names below a block are distinct if and only if at every level siblings are apart. */
  lemma {:induction false} NamesDistinctIff(blocks: seq<Block>, parent: string)
    ensures NoDuplicates(QNsFrom(blocks, parent, 0)) <==> AllApart(Trees(blocks))
  {
    NamesOfTrees(blocks, parent, [], 0);
    SameDuplicates(parent, QNsFrom(blocks, parent, 0), NamesFrom([], Trees(blocks), 0));
    DistinctIff([], Trees(blocks));
  }

  /** `a { b {} }` next to `a "b" {}`: siblings have distinct names, but the block in the first and the second share
      one. */
  lemma {:induction false} NestedNameCollides(parent: string, inner: Block, outer: Block, labelled: Block)
    requires inner.typ == "b" && inner.labels == [] && outer.typ == labelled.typ == "a" && outer.labels == []
    requires outer.hasBody && outer.blocks == [inner] && labelled.labels == ["b"]
    ensures DistinctSiblings(parent, [outer, labelled]) && !NoDuplicates(QNsFrom([outer, labelled], parent, 0))
  {
    var blocks := [outer, labelled];
    PlainParts(outer, labelled);
    PlainPart(inner);
    QNsEqual(parent, blocks, 0, 1);
    TreeOf(blocks, 0);
    TreeOf([inner], 0);
    var s, t := Trees(blocks)[0], Trees(blocks)[1];
    assert s.inside == Trees([inner]) && s.inside[0].parts == ["b"];
    assert SpellsIn(s.inside[0], ["b"]) && Spells(s.inside, ["b"]);
    assert t.parts[|s.parts|..] + [] == ["b"];
    assert ShadowsBy(s, t, []);
    NamesDistinctIff(blocks, parent);
  }

  lemma {:induction false} PlainPart(inner: Block)
    requires inner.typ == "b" && inner.labels == []
    ensures NameParts([inner], 0) == ["b"]
  {
    var keys := Keys([inner]);
    assert Count(keys, keys[0], 0) == 0 && Count(keys, keys[0], 1) == 1;
  }

  lemma {:induction false} PlainParts(outer: Block, labelled: Block)
    requires outer.typ == labelled.typ == "a" && outer.labels == [] && labelled.labels == ["b"]
    ensures NameParts([outer, labelled], 0) == ["a"] && NameParts([outer, labelled], 1) == ["a", "b"]
  {
    var keys := Keys([outer, labelled]);
    KeysEqual(outer, labelled);
    assert |SanitizeAll(outer.labels)| != |SanitizeAll(labelled.labels)|;
    assert keys[0] != keys[1];
    assert Count(keys, keys[0], 0) == 0 && Count(keys, keys[0], 1) == 1 && Count(keys, keys[0], 2) == 1;
    assert Count(keys, keys[1], 0) == 0 && Count(keys, keys[1], 1) == 0 && Count(keys, keys[1], 2) == 1;
    assert Sanitize("b") == "b" && SanitizeAll(["b"]) == ["b"];
  }
}
