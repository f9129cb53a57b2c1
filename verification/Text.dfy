/** Go strings as the rest of the model uses them: one char stands for one byte. */
module Text {

  // ---------- Byte order, Go's `<` on strings ----------

  predicate Less(a: string, b: string) {
    b != [] && (a == [] || a[0] < b[0] || (a[0] == b[0] && Less(a[1..], b[1..])))
  }

  lemma {:induction false} LessIrreflexive(a: string)
    ensures !Less(a, a)
  {
    if a == [] {
    } else {
      LessIrreflexive(a[1..]);
    }
  }

  lemma {:induction false} LessTransitive(a: string, b: string, c: string)
    requires Less(a, b) && Less(b, c)
    ensures Less(a, c)
  {
    if a != [] && a[0] == b[0] == c[0] {
      LessTransitive(a[1..], b[1..], c[1..]);
    }
  }

  lemma {:induction false} LessTotal(a: string, b: string)
    ensures Less(a, b) || a == b || Less(b, a)
  {
    if a != [] && b != [] && a[0] == b[0] {
      LessTotal(a[1..], b[1..]);
      assert a == [a[0]] + a[1..] && b == [b[0]] + b[1..];
    }
  }

  /** Byte order: a proper prefix comes first, and otherwise the first byte that differs decides. */
  lemma {:induction false} LessIff(a: string, b: string)
    ensures Less(a, b) <==> a < b || exists k :: DiffersAt(a, b, k) && a[k] < b[k]
    decreases |a|
  {
    if a != [] && b != [] && a[0] == b[0] {
      LessIff(a[1..], b[1..]);
      assert a == [a[0]] + a[1..] && b == [b[0]] + b[1..];
      assert a < b <==> a[1..] < b[1..];
      if k :| DiffersAt(a[1..], b[1..], k) && a[1..][k] < b[1..][k] {
        assert a[..k + 1] == [a[0]] + a[1..][..k] && b[..k + 1] == [b[0]] + b[1..][..k];
        assert DiffersAt(a, b, k + 1);
      }
      if k :| DiffersAt(a, b, k) && a[k] < b[k] {
        assert a[1..][..k - 1] == a[..k][1..] && b[1..][..k - 1] == b[..k][1..];
        assert DiffersAt(a[1..], b[1..], k - 1);
      }
    } else if a != [] && b != [] {
      assert DiffersAt(a, b, 0);
      forall k | DiffersAt(a, b, k) ensures k == 0 {
      }
    }
  }

  /** The first byte at which two strings differ is the k-th. */
  ghost predicate DiffersAt(a: string, b: string, k: int) {
    0 <= k < |a| && k < |b| && a[..k] == b[..k] && a[k] != b[k]
  }

  // ---------- Decimal numerals, Go's strconv.Itoa and %d ----------

  function Digit(d: nat): (c: char)
    requires d < 10
    ensures '0' <= c <= '9' && c as int - '0' as int == d
  {
    ('0' as int + d) as char
  }

  function Itoa(n: nat): (s: string)
    ensures s != [] && forall i | 0 <= i < |s| :: '0' <= s[i] <= '9'
  {
    if n < 10 then [Digit(n)] else Itoa(n / 10) + [Digit(n % 10)]
  }

  function Atoi(s: string): nat
    requires forall i | 0 <= i < |s| :: '0' <= s[i] <= '9'
  {
    if s == [] then 0 else Atoi(s[..|s| - 1]) * 10 + (s[|s| - 1] as int - '0' as int)
  }

  lemma {:induction false} AtoiItoa(n: nat)
    ensures Atoi(Itoa(n)) == n
  {
    if n < 10 {
      assert [Digit(n)][..0] == [];
    } else {
      AtoiItoa(n / 10);
      var s, d := Itoa(n / 10), Digit(n % 10);
      assert (s + [d])[..|s|] == s;
    }
  }

  lemma {:induction false} ItoaInjective(m: nat, n: nat)
    requires Itoa(m) == Itoa(n)
    ensures m == n
  {
    AtoiItoa(m);
    AtoiItoa(n);
  }

  // ---------- Dotted names ----------

  /** strings.Join(parts, "."). */
  function Join(parts: seq<string>): string {
    if parts == [] then ""
    else if |parts| == 1 then parts[0]
    else parts[0] + "." + Join(parts[1..])
  }

  ghost predicate DotFree(parts: seq<string>) {
    forall i | 0 <= i < |parts| :: '.' !in parts[i]
  }

  /** A part without the separator, followed by nothing or by a separator, can be read back. */
  lemma {:induction false} FirstPart(sep: char, x: string, y: string, s: string, t: string)
    requires sep !in x && sep !in y && x + s == y + t
    requires s == [] || s[0] == sep
    requires t == [] || t[0] == sep
    ensures x == y && s == t
  {
    var whole := x + s;
    assert s != [] ==> whole[|x|] == sep;
    assert t != [] ==> whole[|y|] == sep;
    assert forall i | 0 <= i < |x| :: whole[i] == x[i];
    assert forall i | 0 <= i < |y| :: whole[i] == y[i];
    assert |x| == |y|;
    assert x == whole[..|x|] && y == whole[..|y|];
    assert s == whole[|x|..] && t == whole[|y|..];
  }

  /** So can what precedes and follows the last separator. */
  lemma {:induction false} LastPart(sep: char, x: string, y: string, s: string, t: string)
    requires sep !in s && sep !in t && x + [sep] + s == y + [sep] + t
    ensures x == y && s == t
  {
    var whole := x + [sep] + s;
    assert whole[|x|] == sep && whole[|y|] == sep;
    assert forall i | |x| < i < |whole| :: whole[i] == s[i - |x| - 1];
    assert forall i | |y| < i < |whole| :: whole[i] == t[i - |y| - 1];
    assert |x| == |y|;
    assert x == whole[..|x|] && y == whole[..|y|];
    assert s == whole[|x| + 1..] && t == whole[|y| + 1..];
  }

  /** A dotted name determines its parts. */
  lemma {:induction false} JoinInjective(p: seq<string>, q: seq<string>)
    requires p != [] && q != [] && DotFree(p) && DotFree(q)
    requires Join(p) == Join(q)
    ensures p == q
  {
    var s := if |p| == 1 then "" else "." + Join(p[1..]);
    var t := if |q| == 1 then "" else "." + Join(q[1..]);
    assert Join(p) == p[0] + s && Join(q) == q[0] + t;
    FirstPart('.', p[0], q[0], s, t);
    if |p| > 1 && |q| > 1 {
      assert s[1..] == Join(p[1..]) && t[1..] == Join(q[1..]);
      JoinInjective(p[1..], q[1..]);
      assert p == [p[0]] + p[1..] && q == [q[0]] + q[1..];
    }
  }

  /** Joining in two steps. */
  lemma {:induction false} JoinAppend(p: seq<string>, q: seq<string>)
    requires p != [] && q != []
    ensures Join(p + q) == Join(p) + "." + Join(q)
  {
    assert (p + q)[1..] == p[1..] + q;
    if |p| == 1 {
      assert p[1..] + q == q;
    } else {
      JoinAppend(p[1..], q);
    }
  }

  // ---------- Substrings ----------

  ghost predicate OccursAt(needle: string, haystack: string, i: nat) {
    i + |needle| <= |haystack| && haystack[i..i + |needle|] == needle
  }

  ghost predicate Occurs(needle: string, haystack: string) {
    exists i: nat :: OccursAt(needle, haystack, i)
  }

  predicate HasPrefix(s: string, prefix: string) {
    |prefix| <= |s| && s[..|prefix|] == prefix
  }
}
