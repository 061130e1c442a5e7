/**
 * Windows paths as sequences of components: `D:\Ubisoft\Foo` is
 * ["D:", "Ubisoft", "Foo"]. Also the string helpers the tool uses on
 * paths and arguments (joining, splitting, substring search).
 */
module Paths {
  import opened Outcomes

  type Path = seq<string>

  /** `p` is `q` or an ancestor of `q`. */
  predicate IsPrefixOf(p: Path, q: Path) {
    |p| <= |q| && q[..|p|] == p
  }

  /** `p` lies strictly below `root`, at any depth. */
  predicate IsUnder(root: Path, p: Path) {
    |root| < |p| && p[..|root|] == root
  }

  /** `p` is an immediate child of `root`. */
  predicate IsChildOf(root: Path, p: Path) {
    |p| == |root| + 1 && p[..|root|] == root
  }

  /** The last component: a directory's or file's own name. */
  function Leaf(p: Path): string
    requires p != []
  {
    p[|p| - 1]
  }

  /**
   * `Directory.GetParent(path)?.FullName`: nothing for a drive root,
   * otherwise the path without its last component.
   */
  function Parent(p: Path): (r: Option<Path>)
    ensures r.None? <==> |p| <= 1
    ensures r.Some? ==> IsChildOf(r.value, p)
  {
    if |p| <= 1 then None else Some(p[..|p| - 1])
  }

  /** A child's parent is the directory it was listed in. */
  lemma ParentOfChild(root: Path, p: Path)
    requires root != [] && IsChildOf(root, p)
    ensures Parent(p) == Some(root)
  {
  }

  /** `string.Join` / `[..].join`: the parts separated by `sep`. */
  function Join(parts: seq<string>, sep: string): string
  {
    if |parts| == 0 then ""
    else if |parts| == 1 then parts[0]
    else parts[0] + sep + Join(parts[1..], sep)
  }

  /** Cuts `s` at every occurrence of the character `c`. */
  function Split(s: string, c: char): (r: seq<string>)
    ensures |r| > 0
  {
    if s == [] then [""]
    else if s[0] == c then [""] + Split(s[1..], c)
    else var rest := Split(s[1..], c); [[s[0]] + rest[0]] + rest[1..]
  }

  /** The string form of a path, components joined by backslashes. */
  function PathString(p: Path): string {
    Join(p, "\\")
  }

  predicate StartsWith(s: string, t: string) {
    |t| <= |s| && s[..|t|] == t
  }

  /** `t` occurs in `s` as a contiguous substring. */
  predicate Contains(s: string, t: string)
    decreases |s|
  {
    StartsWith(s, t) || (s != [] && Contains(s[1..], t))
  }

  lemma {:induction false} SplitWithout(a: string, c: char)
    requires c !in a
    ensures Split(a, c) == [a]
  {
    if a != [] {
      SplitWithout(a[1..], c);
      assert [a[0]] + a[1..] == a;
    }
  }

  lemma {:induction false} SplitAfter(a: string, c: char, rest: string)
    requires c !in a
    ensures Split(a + [c] + rest, c) == [a] + Split(rest, c)
  {
    if a == [] {
      assert a + [c] + rest == [c] + rest;
    } else {
      assert (a + [c] + rest)[1..] == a[1..] + [c] + rest;
      SplitAfter(a[1..], c, rest);
      assert [a[0]] + a[1..] == a;
    }
  }

  /**
   * Joining with a one-character separator that no part contains loses
   * nothing: splitting gives the parts back.
   */
  lemma {:induction false} SplitJoin(parts: seq<string>, c: char)
    requires |parts| > 0
    requires forall i | 0 <= i < |parts| :: c !in parts[i]
    ensures Split(Join(parts, [c]), c) == parts
  {
    if |parts| == 1 {
      SplitWithout(parts[0], c);
    } else {
      SplitJoin(parts[1..], c);
      SplitAfter(parts[0], c, Join(parts[1..], [c]));
      assert [parts[0]] + parts[1..] == parts;
    }
  }

  /** A substring of `t` occurs wherever `t` occurs. */
  lemma {:induction false} ContainsPrefix(s: string, a: string, b: string)
    requires Contains(s, a + b)
    ensures Contains(s, a)
    decreases |s|
  {
    if StartsWith(s, a + b) {
      assert s[..|a|] == (a + b)[..|a|];
    } else {
      ContainsPrefix(s[1..], a, b);
    }
  }

  lemma {:induction false} ContainsLength(s: string, t: string)
    requires Contains(s, t)
    ensures |t| <= |s|
    decreases |s|
  {
    if !StartsWith(s, t) {
      ContainsLength(s[1..], t);
    }
  }

  /** A string occurs in any string built around it. */
  lemma {:induction false} ContainsMiddle(u: string, t: string, v: string)
    ensures Contains(u + t + v, t)
    decreases |u|
  {
    if u == [] {
      assert (u + t + v)[..|t|] == t;
    } else {
      assert (u + t + v)[1..] == u[1..] + t + v;
      ContainsMiddle(u[1..], t, v);
    }
  }

  /** The last part of a join ends the joined string. */
  lemma {:induction false} JoinEndsWithLast(parts: seq<string>, sep: string)
    requires |parts| > 0
    ensures var j, last := Join(parts, sep), parts[|parts| - 1];
      |last| <= |j| && j[|j| - |last|..] == last
  {
    if |parts| > 1 {
      JoinEndsWithLast(parts[1..], sep);
      var rest := Join(parts[1..], sep);
      assert Join(parts, sep) == (parts[0] + sep) + rest;
    }
  }

  /** A join starts with its first part. */
  lemma JoinStartsWithFirst(parts: seq<string>, sep: string)
    requires |parts| > 0
    ensures StartsWith(Join(parts, sep), parts[0])
  {
    if |parts| > 1 {
      assert Join(parts, sep) == parts[0] + (sep + Join(parts[1..], sep));
    }
  }
}
