/** Where a file's git repository is: `gitRepoRoot` of cmd/pinch/hook_check_advise_index.go on absolute paths, and what
    the hook log's test for "below a root" makes of the same paths as strings. */
module Repositories {
  import opened Collections
  import Text

  // ---------- Paths ----------

  ghost predicate SlashFree(parts: seq<string>) { forall i | 0 <= i < |parts| :: '/' !in parts[i] }

  /** A proper name of a file or directory. */
  predicate IsName(s: string) { s != "" && s != "." && s != ".." && '/' !in s }

  ghost predicate Clean(parts: seq<string>) { forall i | 0 <= i < |parts| :: IsName(parts[i]) }

  function Slashed(parts: seq<string>): string {
    if parts == [] then "" else "/" + parts[0] + Slashed(parts[1..])
  }

  /** The absolute path of a file or directory. */
  function PathOf(parts: seq<string>): (path: string)
    ensures path != ""
  {
    if parts == [] then "/" else Slashed(parts)
  }

  predicate Absolute(path: string) { path != "" && path[0] == '/' }

  function Split(s: string): (parts: seq<string>)
    ensures parts != [] && SlashFree(parts)
  {
    if s == "" then [""]
    else
      var rest := Split(s[1..]);
      if s[0] == '/' then [""] + rest else [[s[0]] + rest[0]] + rest[1..]
  }

  /** What stands between the slashes of an absolute path. */
  function Elements(path: string): (parts: seq<string>)
    requires Absolute(path)
    ensures parts != [] && SlashFree(parts)
  {
    Split(path[1..])
  }

  lemma {:induction false} SplitJoins(s: string)
    ensures Slashed(Split(s)) == "/" + s
    decreases |s|
  {
    if s != "" {
      SplitJoins(s[1..]);
      var rest, parts := Split(s[1..]), Split(s);
      if s[0] == '/' {
        assert parts[1..] == rest;
        assert Slashed(parts) == "/" + "" + ("/" + s[1..]);
      } else {
        assert parts[1..] == rest[1..];
        assert "/" + rest[0] + Slashed(rest[1..]) == "/" + s[1..];
        DropSlash(rest[0], Slashed(rest[1..]), "", s[1..]);
        assert Slashed(parts) == "/" + [s[0]] + (rest[0] + Slashed(rest[1..]));
      }
    }
  }

  /** The elements spell the path. */
  lemma {:induction false} ElementsSpell(path: string)
    requires Absolute(path)
    ensures Slashed(Elements(path)) == path
  {
    SplitJoins(path[1..]);
  }

  /** And they are the only ones that do. */
  lemma {:induction false} SpelledOnce(p: seq<string>, q: seq<string>)
    requires SlashFree(p) && SlashFree(q) && Slashed(p) == Slashed(q)
    ensures p == q
    decreases |p|
  {
    if p != [] && q != [] {
      DropSlash(p[0], Slashed(p[1..]), q[0], Slashed(q[1..]));
      Text.FirstPart('/', p[0], q[0], Slashed(p[1..]), Slashed(q[1..]));
      SpelledOnce(p[1..], q[1..]);
      assert p == [p[0]] + p[1..] && q == [q[0]] + q[1..];
    }
  }

  lemma {:induction false} ElementsOf(parts: seq<string>)
    requires parts != [] && SlashFree(parts)
    ensures Absolute(Slashed(parts)) && Elements(Slashed(parts)) == parts
  {
    ElementsSpell(Slashed(parts));
    SpelledOnce(Elements(Slashed(parts)), parts);
  }

  lemma {:induction false} DropSlash(x: string, s: string, y: string, t: string)
    requires "/" + x + s == "/" + y + t
    ensures x + s == y + t
  {
    assert x + s == ("/" + x + s)[1..];
    assert y + t == ("/" + y + t)[1..];
  }

  // ---------- Cleaning a path ----------

  /** filepath.Dir on a clean path. */
  function Parent(parts: seq<string>): seq<string> { if parts == [] then [] else parts[..|parts| - 1] }

  /** filepath.Clean on the elements of an absolute path: empty elements and dots go, two dots take the element before
      them along. */
  function Cleaned(raw: seq<string>): (parts: seq<string>)
    ensures SlashFree(raw) ==> Clean(parts)
  {
    if raw == [] then []
    else
      var before, last := Cleaned(raw[..|raw| - 1]), raw[|raw| - 1];
      if last == "" || last == "." then before
      else if last == ".." then Parent(before)
      else before + [last]
  }

  /** Element by element: an empty one or a dot changes nothing, two dots drop the last name, and a name is added. */
  lemma {:induction false} CleanedForms(raw: seq<string>, name: string)
    ensures Cleaned([]) == []
    ensures Cleaned(raw + [""]) == Cleaned(raw) && Cleaned(raw + ["."]) == Cleaned(raw)
    ensures Cleaned(raw + [".."]) == if Cleaned(raw) == [] then [] else Cleaned(raw)[..|Cleaned(raw)| - 1]
    ensures IsName(name) ==> Cleaned(raw + [name]) == Cleaned(raw) + [name]
  {
    assert (raw + [""])[..|raw|] == raw && (raw + ["."])[..|raw|] == raw && (raw + [".."])[..|raw|] == raw;
    assert (raw + [name])[..|raw|] == raw;
  }

  /** A clean path is left alone. */
  lemma {:induction false} CleanedFixed(parts: seq<string>)
    requires Clean(parts)
    ensures Cleaned(parts) == parts
    decreases |parts|
  {
    if parts != [] {
      CleanedFixed(parts[..|parts| - 1]);
      assert IsName(parts[|parts| - 1]);
    }
  }

  /** Where the file behind a path is. */
  function FileOf(path: string): seq<string>
    requires Absolute(path)
  {
    Cleaned(Elements(path))
  }

  /** The file behind the path is somewhere in the directory. */
  predicate FileIn(path: string, dir: seq<string>) { Absolute(path) && dir < FileOf(path) }

  // ---------- The repository of a file ----------

  /** Which directories hold a .git. */
  type Disk = seq<string> -> bool

  /** The directory is the deepest one around the file that holds a .git, or there is none. */
  ghost predicate IsRepoRoot(disk: Disk, file: seq<string>, root: Option<seq<string>>) {
    && (root.Some? ==> root.value <= Parent(file) && disk(root.value))
    && forall dir: seq<string> | dir <= Parent(file) && disk(dir) :: root.Some? && dir <= root.value
  }

  /** gitRepoRoot. */
  method GitRepoRoot(disk: Disk, absPath: string) returns (root: Option<seq<string>>)
    requires Absolute(absPath)
    ensures IsRepoRoot(disk, FileOf(absPath), root)
  {
    var dir := Parent(FileOf(absPath));
    ghost var first := dir;
    while true
      invariant dir <= first
      invariant forall d: seq<string> | d <= first && disk(d) :: d <= dir
      decreases |dir|
    {
      if disk(dir) {
        return Some(dir);
      }
      assert forall d: seq<string> | d <= first && |d| == |dir| :: d == dir;
      var parent := Parent(dir);
      if parent == dir {
        return None;
      }
      dir := parent;
    }
  }

  // ---------- What the log's prefix test says ----------

  /** A path below a directory, element by element, has its path, a slash, and more. */
  lemma {:induction false} BelowHasPrefix(dir: seq<string>, raw: seq<string>)
    requires dir != [] && dir < raw
    ensures Text.HasPrefix(Slashed(raw), PathOf(dir) + "/")
  {
    var rest := raw[|dir|..];
    assert raw == dir + rest;
    SlashedAppend(dir, rest);
    assert Slashed(rest)[0] == '/';
    assert Slashed(raw)[..|PathOf(dir)| + 1] == PathOf(dir) + "/";
  }

  lemma {:induction false} SlashedAppend(p: seq<string>, q: seq<string>)
    ensures Slashed(p + q) == Slashed(p) + Slashed(q)
    decreases |p|
  {
    if p == [] {
      assert p + q == q;
    } else {
      assert (p + q)[1..] == p[1..] + q;
      SlashedAppend(p[1..], q);
    }
  }

  /** And nothing else does. */
  lemma {:induction false} PrefixIsBelow(dir: seq<string>, raw: seq<string>, more: string)
    requires dir != [] && SlashFree(dir) && SlashFree(raw) && Slashed(raw) == Slashed(dir) + "/" + more
    ensures dir < raw
    decreases |dir|
  {
    assert raw != [];
    SameFirst(dir, raw, more);
    if |dir| == 1 {
      assert dir == raw[..1];
      assert raw[1..] != [];
    } else {
      PrefixIsBelow(dir[1..], raw[1..], more);
      assert dir == [dir[0]] + dir[1..] && raw == [raw[0]] + raw[1..];
    }
  }

  lemma {:induction false} SameFirst(dir: seq<string>, raw: seq<string>, more: string)
    requires dir != [] && raw != [] && SlashFree(dir) && SlashFree(raw)
    requires Slashed(raw) == Slashed(dir) + "/" + more
    ensures dir[0] == raw[0] && Slashed(raw[1..]) == Slashed(dir[1..]) + "/" + more
  {
    var s, t := Slashed(raw[1..]), Slashed(dir[1..]) + "/" + more;
    assert Slashed(dir) + "/" + more == "/" + dir[0] + t;
    DropSlash(raw[0], s, dir[0], t);
    Text.FirstPart('/', raw[0], dir[0], s, t);
  }

  /** The names a path starts with, up to the first element that is none. */
  function LeadingNames(raw: seq<string>): seq<string> {
    if raw == [] || !IsName(raw[0]) then [] else [raw[0]] + LeadingNames(raw[1..])
  }

  lemma {:induction false} LeadingNamesMost(dir: seq<string>, raw: seq<string>)
    requires Clean(dir)
    ensures dir <= raw <==> dir <= LeadingNames(raw)
    decreases |dir|
  {
    if dir != [] && raw != [] && dir[0] == raw[0] {
      LeadingNamesMost(dir[1..], raw[1..]);
      assert dir == [dir[0]] + dir[1..] && raw == [raw[0]] + raw[1..];
      assert dir <= raw <==> dir[1..] <= raw[1..];
      assert LeadingNames(raw)[1..] == LeadingNames(raw[1..]);
      assert dir <= LeadingNames(raw) <==> dir[1..] <= LeadingNames(raw[1..]);
    }
  }

  lemma {:induction false} LeadingNamesClean(raw: seq<string>)
    ensures Clean(LeadingNames(raw)) && LeadingNames(raw) <= raw
    decreases |raw|
  {
    if raw != [] && IsName(raw[0]) {
      LeadingNamesClean(raw[1..]);
      assert raw == [raw[0]] + raw[1..];
    }
  }

  /** The test puts a path below a directory if and only if the directory is among the names its directory starts
      with, as spelled. */
  lemma {:induction false} CountedIff(path: string, dir: seq<string>)
    requires Absolute(path) && Clean(dir) && dir != []
    ensures Text.HasPrefix(path, PathOf(dir) + "/") <==> dir <= LeadingNames(Parent(Elements(path)))
  {
    var raw := Elements(path);
    ElementsSpell(path);
    LeadingNamesMost(dir, Parent(raw));
    assert dir <= Parent(raw) <==> dir < raw;
    if dir < raw {
      BelowHasPrefix(dir, raw);
    }
    if Text.HasPrefix(path, PathOf(dir) + "/") {
      var prefix := PathOf(dir) + "/";
      assert path == prefix + path[|prefix|..];
      PrefixIsBelow(dir, raw, path[|prefix|..]);
    }
  }

  /** The test puts the path below exactly the directories its file is in. */
  ghost predicate RightlyCounted(path: string) {
    forall dir | Clean(dir) && dir != [] :: Text.HasPrefix(path, PathOf(dir) + "/") <==> FileIn(path, dir)
  }

  /** It does if and only if the names its directory starts with, as spelled, are its directory. */
  lemma {:induction false} RightlyCountedIff(path: string)
    requires Absolute(path)
    ensures RightlyCounted(path) <==> LeadingNames(Parent(Elements(path))) == Parent(FileOf(path))
  {
    var names, actual := LeadingNames(Parent(Elements(path))), Parent(FileOf(path));
    LeadingNamesClean(Parent(Elements(path)));
    forall dir | Clean(dir) && dir != []
      ensures Text.HasPrefix(path, PathOf(dir) + "/") <==> dir <= names
      ensures FileIn(path, dir) <==> dir <= actual
    {
      CountedIff(path, dir);
    }
    if RightlyCounted(path) {
      assert names != [] ==> FileIn(path, names);
      assert actual != [] ==> Text.HasPrefix(path, PathOf(actual) + "/");
    }
  }

  /** In particular for every clean path. */
  lemma {:induction false} CleanIsRightlyCounted(parts: seq<string>)
    requires parts != [] && Clean(parts)
    ensures Absolute(Slashed(parts)) && FileOf(Slashed(parts)) == parts && RightlyCounted(Slashed(parts))
  {
    ElementsOf(parts);
    CleanedFixed(parts);
    LeadingNamesMost(Parent(parts), Parent(parts));
    LeadingNamesClean(Parent(parts));
    RightlyCountedIff(Slashed(parts));
  }

  /** Below the root of the file system only paths that start with two slashes are counted. */
  lemma {:induction false} CountedBelowRoot(path: string)
    requires Absolute(path)
    ensures Text.HasPrefix(path, PathOf([]) + "/") <==> |Elements(path)| > 1 && Elements(path)[0] == ""
  {
    var raw := Elements(path);
    ElementsSpell(path);
    assert PathOf([]) + "/" == "//";
    assert path == "/" + raw[0] + Slashed(raw[1..]);
    if raw[0] != "" {
      assert path[1] == raw[0][0];
    } else if |raw| > 1 {
      assert path[1] == Slashed(raw[1..])[0] == '/';
    }
  }

  /** The path /b/../a/x.go: the file is in /a and not in /b, but is counted below /b and not below /a. */
  const DETOUR: seq<string> := ["b", "..", "a", "x.go"]

  lemma {:induction false} DetourMiscounted()
    ensures Absolute(Slashed(DETOUR)) && FileOf(Slashed(DETOUR)) == ["a", "x.go"]
    ensures FileIn(Slashed(DETOUR), ["a"]) && !FileIn(Slashed(DETOUR), ["b"])
    ensures Text.HasPrefix(Slashed(DETOUR), PathOf(["b"]) + "/")
    ensures !Text.HasPrefix(Slashed(DETOUR), PathOf(["a"]) + "/")
    ensures !RightlyCounted(Slashed(DETOUR))
  {
    DetourCleaned();
    ElementsOf(DETOUR);
    assert Clean(["a"]) && Clean(["b"]);
    DetourNames();
    CountedIff(Slashed(DETOUR), ["a"]);
    CountedIff(Slashed(DETOUR), ["b"]);
  }

  lemma {:induction false} DetourNames()
    ensures Slashed(DETOUR) == "/b/../a/x.go" && LeadingNames(Parent(DETOUR)) == ["b"]
  {
    assert DETOUR[1..] == ["..", "a", "x.go"] && DETOUR[1..][1..] == ["a", "x.go"];
    assert DETOUR[1..][1..][1..] == ["x.go"] && DETOUR[1..][1..][1..][1..] == [];
    assert Parent(DETOUR)[1..] == ["..", "a"];
    assert LeadingNames(["..", "a"]) == [];
  }

  lemma {:induction false} DetourCleaned()
    ensures Cleaned(DETOUR) == ["a", "x.go"]
  {
    assert DETOUR[..3] == ["b", "..", "a"] && DETOUR[..3][..2] == ["b", ".."] && DETOUR[..3][..2][..1] == ["b"];
    assert Cleaned([]) == [];
    assert Cleaned(["b"]) == ["b"];
    assert Cleaned(["b", ".."]) == [];
    assert Cleaned(["b", "..", "a"]) == ["a"];
  }
}
