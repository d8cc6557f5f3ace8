/**
 * Paths, both as the synchronizer spells them (strings under a root) and as
 * the model keys its trees (sequences of path segments relative to a root).
 */
module Paths {
  import opened Wrappers

  /** A path relative to a tree root, one string per segment; the root itself is `[]`. */
  type Path = seq<string>

  /** The directory separator (`Path.DirectorySeparatorChar` on a Unix host). */
  const Separator: char := '/'

  /** `a` names `b` or one of its ancestors. */
  predicate IsPrefix(a: Path, b: Path) {
    |a| <= |b| && b[..|a|] == a
  }

  /** `a` names a strict ancestor of `b`. */
  predicate IsProperPrefix(a: Path, b: Path) {
    |a| < |b| && b[..|a|] == a
  }

  /** The directory holding `p` (`Path.GetDirectoryName`, relative to the root). */
  function Parent(p: Path): Path
    requires p != []
  {
    p[..|p| - 1]
  }

  /** `d` together with every ancestor of `d` below the root. */
  function Ancestry(d: Path): (r: set<Path>)
    ensures forall q :: q in r <==> q != [] && IsPrefix(q, d)
  {
    var r := set k | 1 <= k <= |d| :: d[..k];
    assert forall q :: q != [] && IsPrefix(q, d) ==> q in r by {
      forall q | q != [] && IsPrefix(q, d)
        ensures q in r
      {
        assert q == d[..|q|];
      }
    }
    r
  }

  lemma PrefixOfParent(a: Path, p: Path)
    requires p != [] && IsPrefix(a, Parent(p))
    ensures IsProperPrefix(a, p)
  {
    assert p[..|a|] == Parent(p)[..|a|];
  }

  lemma ProperPrefixOfParent(a: Path, p: Path)
    requires IsProperPrefix(a, p)
    ensures IsPrefix(a, Parent(p))
  {
    assert Parent(p)[..|a|] == p[..|a|];
  }

  lemma PrefixTransitive(a: Path, b: Path, c: Path)
    requires IsPrefix(a, b) && IsPrefix(b, c)
    ensures IsPrefix(a, c)
  {
    assert c[..|a|] == c[..|b|][..|a|];
  }

  // ---------------------------------------------------------------------
  // Paths as strings
  // ---------------------------------------------------------------------

  /** A single path segment: non-empty and free of separators. */
  predicate IsName(s: string) {
    |s| > 0 && Separator !in s
  }

  /** A relative path that names an entry below the root. */
  predicate IsRelative(p: Path) {
    |p| > 0 && forall i :: 0 <= i < |p| ==> IsName(p[i])
  }

  /** The string spelling of a relative path: its segments separated by `Separator`. */
  function Join(p: Path): string {
    if |p| == 0 then ""
    else if |p| == 1 then p[0]
    else p[0] + [Separator] + Join(p[1..])
  }

  /** The segments of a string path, cut at every separator. */
  function Split(s: string): (r: Path)
    ensures |r| > 0
  {
    if |s| == 0 then [""]
    else
      var rest := Split(s[1..]);
      if s[0] == Separator then [""] + rest
      else [[s[0]] + rest[0]] + rest[1..]
  }

  /**
   * `Path.Combine(root, rel)`: an empty argument is dropped, a rooted second
   * argument wins, and a separator is inserted unless the root already ends
   * with one.
   */
  function Combine(root: string, rel: string): string {
    if |rel| == 0 then root
    else if rel[0] == Separator then rel
    else if |root| == 0 then rel
    else if root[|root| - 1] == Separator then root + rel
    else root + [Separator] + rel
  }

  /** `s.Substring(start)`, which throws when `start` lies outside `0..|s|`. */
  function Substring(s: string, start: int): (r: Option<string>)
    ensures r.Some? <==> 0 <= start <= |s|
    ensures r.Some? ==> |r.value| == |s| - start && s == s[..start] + r.value
  {
    if 0 <= start <= |s| then Some(s[start..]) else None
  }

  /** The relative path the synchronizer computes for an enumerated `full` path under `root`. */
  function RelativePath(root: string, full: string): Option<string> {
    Substring(full, |root| + 1)
  }

  /** A root the synchronizer can be started with: non-empty, no trailing separator. */
  predicate IsRoot(root: string) {
    |root| > 0 && root[|root| - 1] != Separator
  }

  /**
   * Every enumerated entry is `Combine(root, Join(p))`; cutting the root and
   * one separator off it gives back `Join(p)`.
   */
  lemma RelativePathOfCombine(root: string, p: Path)
    requires IsRoot(root) && IsRelative(p)
    ensures RelativePath(root, Combine(root, Join(p))) == Some(Join(p))
  {
    JoinStartsWithName(p);
    var full := Combine(root, Join(p));
    assert full == root + [Separator] + Join(p);
    assert full[|root| + 1..] == Join(p);
  }

  /**
   * The relative path computed under one root names the same entry under the
   * other: mapping a source path to the replica lands on the replica path of
   * the same relative entry.
   */
  lemma CombineMapsEntry(sourceRoot: string, replicaRoot: string, p: Path)
    requires IsRoot(sourceRoot) && IsRoot(replicaRoot) && IsRelative(p)
    ensures var rel := RelativePath(sourceRoot, Combine(sourceRoot, Join(p)));
      && rel.Some?
      && Combine(replicaRoot, rel.value) == replicaRoot + [Separator] + Join(p)
      && RelativePath(replicaRoot, Combine(replicaRoot, rel.value)) == rel
  {
    RelativePathOfCombine(sourceRoot, p);
    RelativePathOfCombine(replicaRoot, p);
    JoinStartsWithName(p);
  }

  /**
   * Conversely, a full path that starts with the root and one separator is
   * rebuilt by combining the root with its relative path.
   */
  lemma CombineOfRelativePath(root: string, full: string)
    requires IsRoot(root)
    requires |full| > |root| + 1 && full[..|root| + 1] == root + [Separator]
    requires full[|root| + 1] != Separator
    ensures RelativePath(root, full).Some?
    ensures Combine(root, RelativePath(root, full).value) == full
  {
    var rel := full[|root| + 1..];
    assert full == full[..|root| + 1] + rel;
  }

  lemma JoinStartsWithName(p: Path)
    requires IsRelative(p)
    ensures |Join(p)| > 0 && Join(p)[0] != Separator
  {
    assert p[0][0] != Separator by {
      assert IsName(p[0]);
    }
    if |p| > 1 {
      assert Join(p) == p[0] + [Separator] + Join(p[1..]);
      assert Join(p)[0] == p[0][0];
    }
  }

  lemma {:induction false} SplitName(name: string)
    requires Separator !in name
    ensures Split(name) == [name]
  {
    if |name| > 0 {
      SplitName(name[1..]);
      assert [name[0]] + name[1..] == name;
    }
  }

  lemma {:induction false} SplitAtSeparator(name: string, rest: string)
    requires Separator !in name
    ensures Split(name + [Separator] + rest) == [name] + Split(rest)
  {
    var s := name + [Separator] + rest;
    if |name| == 0 {
      assert s[1..] == rest;
    } else {
      assert s[1..] == name[1..] + [Separator] + rest;
      SplitAtSeparator(name[1..], rest);
      assert [name[0]] + name[1..] == name;
    }
  }

  /** Splitting the spelling of a relative path gives back its segments. */
  lemma {:induction false} SplitJoin(p: Path)
    requires IsRelative(p)
    ensures Split(Join(p)) == p
  {
    assert IsName(p[0]);
    if |p| == 1 {
      SplitName(p[0]);
    } else {
      assert IsRelative(p[1..]) by {
        forall i | 0 <= i < |p[1..]|
          ensures IsName(p[1..][i])
        {
          assert p[1..][i] == p[i + 1];
        }
      }
      SplitJoin(p[1..]);
      SplitAtSeparator(p[0], Join(p[1..]));
      assert [p[0]] + p[1..] == p;
    }
  }

  /**
   * Distinct relative entries have distinct spellings, so keying a tree by
   * segments loses nothing the string-keyed source distinguishes.
   */
  lemma JoinInjective(p: Path, q: Path)
    requires IsRelative(p) && IsRelative(q) && Join(p) == Join(q)
    ensures p == q
  {
    SplitJoin(p);
    SplitJoin(q);
  }
}
