/**
 * An abstract directory tree and the filesystem primitives the synchronizer
 * calls, each a pure partial operation that either yields the new tree or the
 * error the .NET call would throw.
 */
module FileSystem {
  import opened Wrappers
  import opened Paths

  type Byte = b: int | 0 <= b < 256
  type Bytes = seq<Byte>

  /** The exceptions the primitives can raise on a well-formed tree. */
  datatype FsError =
    | DirectoryNotFound(path: Path)  // a directory the call needs does not exist
    | AccessDenied(path: Path)       // a file operation aimed at a directory
    | FileInTheWay(path: Path)       // a directory wanted where a file exists

  /**
   * The entries below one root: file contents by relative path, and the set
   * of relative directory paths. The root `[]` is implicit and never listed.
   */
  datatype Tree = Tree(files: map<Path, Bytes>, dirs: set<Path>)

  /** `Directory.Exists` on the live tree (the root always exists). */
  predicate DirExists(t: Tree, d: Path) {
    d == [] || d in t.dirs
  }

  /** `File.Exists` on the live tree (false for a directory). */
  predicate FileExists(t: Tree, p: Path) {
    p in t.files
  }

  /**
   * A tree the filesystem can hold: the root is not an entry, no path is both
   * a file and a directory, and every entry's parent directory exists.
   */
  predicate Valid(t: Tree) {
    && [] !in t.dirs
    && [] !in t.files
    && t.files.Keys !! t.dirs
    && (forall d {:trigger Parent(d)} :: d in t.dirs ==> DirExists(t, Parent(d)))
    && (forall p {:trigger Parent(p)} :: p in t.files ==> DirExists(t, Parent(p)))
  }

  /** The tree with nothing below its root. */
  const Empty: Tree := Tree(map[], {})

  /** Every ancestor of an existing directory exists. */
  lemma {:induction false} AncestorsExist(t: Tree, d: Path, a: Path)
    requires Valid(t) && DirExists(t, d)
    requires a != [] && IsPrefix(a, d)
    ensures a in t.dirs
    decreases |d|
  {
    if a != d {
      assert d != [] && IsPrefix(a, Parent(d)) by {
        ProperPrefixOfParent(a, d);
      }
      AncestorsExist(t, Parent(d), a);
    }
  }

  /** Every strict ancestor of a file is an existing directory. */
  lemma FileAncestorsExist(t: Tree, p: Path, a: Path)
    requires Valid(t) && p in t.files
    requires a != [] && IsProperPrefix(a, p)
    ensures a in t.dirs
  {
    ProperPrefixOfParent(a, p);
    AncestorsExist(t, Parent(p), a);
  }

  /** Nothing lies below a directory that does not exist. */
  lemma NothingBelowMissing(t: Tree, d: Path)
    requires Valid(t) && d != [] && d !in t.dirs
    ensures forall q :: q in t.dirs ==> !IsPrefix(d, q)
    ensures forall p :: p in t.files ==> !IsProperPrefix(d, p)
  {
    forall q | q in t.dirs && IsPrefix(d, q)
      ensures false
    {
      AncestorsExist(t, q, d);
    }
    forall p | p in t.files && IsProperPrefix(d, p)
      ensures false
    {
      FileAncestorsExist(t, p, d);
    }
  }

  // ---------------------------------------------------------------------
  // Primitives
  // ---------------------------------------------------------------------

  /** No component of `d` (including `d`) is an existing file. */
  predicate CanCreate(t: Tree, d: Path) {
    forall q :: q in Ancestry(d) ==> q !in t.files
  }

  /**
   * `Directory.CreateDirectory(d)`: creates `d` and every missing ancestor;
   * throws when one of those components is a file.
   */
  function CreateDirectory(t: Tree, d: Path): (r: Result<Tree, FsError>)
    requires Valid(t)
    ensures r.Success? <==> CanCreate(t, d)
    ensures r.Success? ==> Valid(r.value) && r.value.files == t.files
    ensures r.Success? ==> DirExists(r.value, d)
    ensures r.Success? ==>
      forall q :: q in r.value.dirs <==> q in t.dirs || (q != [] && IsPrefix(q, d))
  {
    if CanCreate(t, d) then
      var r := Tree(t.files, t.dirs + Ancestry(d));
      assert forall q :: q in r.dirs ==> DirExists(r, Parent(q)) by {
        forall q | q in r.dirs
          ensures DirExists(r, Parent(q))
        {
          if q in Ancestry(d) && Parent(q) != [] {
            PrefixTransitive(Parent(q), q, d);
          }
        }
      }
      Success(r)
    else
      Failure(FileInTheWay(d))
  }

  /** Creating a directory that already exists changes nothing. */
  lemma CreateExistingDirectory(t: Tree, d: Path)
    requires Valid(t) && DirExists(t, d)
    ensures CreateDirectory(t, d) == Success(t)
  {
    forall q | q in Ancestry(d)
      ensures q in t.dirs
    {
      AncestorsExist(t, d, q);
    }
    assert CanCreate(t, d);
    assert t.dirs + Ancestry(d) == t.dirs;
  }

  /**
   * `File.Copy(source, p, true)`: writes `content` at `p`, overwriting a file
   * already there; throws when `p` is a directory or its directory is missing.
   */
  function CopyFile(t: Tree, p: Path, content: Bytes): (r: Result<Tree, FsError>)
    requires Valid(t) && p != []
    ensures r.Success? <==> p !in t.dirs && DirExists(t, Parent(p))
    ensures r.Success? ==> Valid(r.value) && r.value.dirs == t.dirs
    ensures r.Success? ==> p in r.value.files && r.value.files[p] == content
    ensures r.Success? ==> forall q :: q in r.value.files ==> q == p || q in t.files
    ensures r.Success? ==>
      forall q :: q in t.files && q != p ==> q in r.value.files && r.value.files[q] == t.files[q]
  {
    if p in t.dirs then Failure(AccessDenied(p))
    else if !DirExists(t, Parent(p)) then Failure(DirectoryNotFound(Parent(p)))
    else Success(Tree(t.files[p := content], t.dirs))
  }

  /**
   * `File.Delete(p)`: removes the file at `p`, and does nothing when there is
   * none; throws when `p` is a directory or its directory is missing.
   */
  function DeleteFile(t: Tree, p: Path): (r: Result<Tree, FsError>)
    requires Valid(t) && p != []
    ensures r.Success? <==> p !in t.dirs && DirExists(t, Parent(p))
    ensures r.Success? ==> Valid(r.value) && r.value.dirs == t.dirs && p !in r.value.files
    ensures r.Success? ==>
      forall q :: q != p ==> (q in r.value.files <==> q in t.files)
    ensures r.Success? ==> forall q :: q in r.value.files ==> r.value.files[q] == t.files[q]
  {
    if p in t.dirs then Failure(AccessDenied(p))
    else if !DirExists(t, Parent(p)) then Failure(DirectoryNotFound(Parent(p)))
    else Success(Tree(t.files - {p}, t.dirs))
  }

  /**
   * `Directory.Delete(d, true)`: removes `d` with every file and directory
   * below it; throws when `d` is not an existing directory.
   */
  function DeleteDirectory(t: Tree, d: Path): (r: Result<Tree, FsError>)
    requires Valid(t)
    ensures r.Success? <==> d in t.dirs
    ensures r.Success? ==> Valid(r.value)
    ensures r.Success? ==> forall q :: q in r.value.dirs <==> q in t.dirs && !IsPrefix(d, q)
    ensures r.Success? ==> forall q :: q in r.value.files <==> q in t.files && !IsPrefix(d, q)
    ensures r.Success? ==> forall q :: q in r.value.files ==> r.value.files[q] == t.files[q]
  {
    if d !in t.dirs then Failure(DirectoryNotFound(d))
    else
      var r := Tree(map q | q in t.files && !IsPrefix(d, q) :: t.files[q],
                    set q | q in t.dirs && !IsPrefix(d, q));
      assert forall q :: q in r.dirs ==> DirExists(r, Parent(q)) by {
        forall q | q in r.dirs && Parent(q) != []
          ensures Parent(q) in r.dirs
        {
          if IsPrefix(d, Parent(q)) {
            PrefixOfParent(d, q);
          }
        }
      }
      assert forall q :: q in r.files ==> DirExists(r, Parent(q)) by {
        forall q | q in r.files && Parent(q) != []
          ensures Parent(q) in r.dirs
        {
          if IsPrefix(d, Parent(q)) {
            PrefixOfParent(d, q);
          }
        }
      }
      Success(r)
  }

  // ---------------------------------------------------------------------
  // Enumeration
  // ---------------------------------------------------------------------

  /** `s` lists every path of `entries` exactly once, and nothing else. */
  predicate Lists(s: seq<Path>, entries: set<Path>) {
    && NoDuplicates(s)
    && (forall i :: 0 <= i < |s| ==> s[i] in entries)
    && (forall p :: p in entries ==> p in s)
  }

  /** Every directory in `s` comes after its ancestors. */
  predicate AncestorsFirst(s: seq<Path>) {
    forall i, j :: 0 <= i < |s| && 0 <= j < |s| && IsProperPrefix(s[i], s[j]) ==> i < j
  }

  /**
   * The order in which the operating system lists a tree: `files` stands for
   * `Directory.GetFiles(root, "*.*", AllDirectories)` and `dirs` for
   * `Directory.GetDirectories(...)`, each applied to the entries present when
   * the listing is taken.
   */
  datatype Enumerator = Enumerator(files: set<Path> -> seq<Path>, dirs: set<Path> -> seq<Path>)

  /** Listings are exact snapshots, and directory listings put ancestors first. */
  ghost predicate ValidEnumerator(os: Enumerator) {
    && (forall s :: Lists(os.files(s), s))
    && (forall s :: Lists(os.dirs(s), s) && AncestorsFirst(os.dirs(s)))
  }

  /** A non-empty set of paths has a shortest member. */
  lemma {:induction false} ShortestExists(s: set<Path>)
    requires s != {}
    ensures exists p :: p in s && forall q :: q in s ==> |p| <= |q|
    decreases |s|
  {
    var x :| x in s;
    if s == {x} {
      assert forall q :: q in s ==> |x| <= |q|;
    } else {
      assert s - {x} != {};
      ShortestExists(s - {x});
      var y :| y in s - {x} && forall q :: q in s - {x} ==> |y| <= |q|;
      if |x| <= |y| {
        assert forall q :: q in s ==> |x| <= |q|;
      } else {
        assert forall q :: q in s ==> |y| <= |q|;
      }
    }
  }

  /** A shortest member of a non-empty set of paths. */
  ghost function Shortest(s: set<Path>): (p: Path)
    requires s != {}
    ensures p in s && forall q :: q in s ==> |p| <= |q|
  {
    ShortestExists(s);
    var p :| p in s && forall q :: q in s ==> |p| <= |q|;
    p
  }

  /** `s` listed shortest path first. */
  ghost function ShortestFirst(s: set<Path>): (r: seq<Path>)
    ensures |r| == |s|
    decreases |s|
  {
    if s == {} then []
    else [Shortest(s)] + ShortestFirst(s - {Shortest(s)})
  }

  /** The shortest-first listing lists every path of `s` once. */
  lemma {:induction false} ShortestFirstLists(s: set<Path>)
    ensures Lists(ShortestFirst(s), s)
    decreases |s|
  {
    if s != {} {
      var p := Shortest(s);
      var rest := ShortestFirst(s - {p});
      ShortestFirstLists(s - {p});
      var r := ShortestFirst(s);
      assert r == [p] + rest;
      assert p !in rest;
      NoDuplicatesAppend([p], rest);
      assert forall i :: 0 <= i < |r| ==> r[i] in s by {
        forall i | 0 <= i < |r|
          ensures r[i] in s
        {
          if i > 0 {
            assert r[i] == rest[i - 1];
          }
        }
      }
      assert forall q :: q in s ==> q in r by {
        forall q | q in s
          ensures q in r
        {
          if q != p {
            assert q in s - {p};
            assert q in rest;
          }
        }
      }
    }
  }

  /** The shortest-first listing never puts a longer path before a shorter one. */
  lemma {:induction false} ShortestFirstSorted(s: set<Path>)
    ensures forall i, j :: 0 <= i < j < |ShortestFirst(s)| ==> |ShortestFirst(s)[i]| <= |ShortestFirst(s)[j]|
    decreases |s|
  {
    if s != {} {
      var p := Shortest(s);
      var rest := ShortestFirst(s - {p});
      ShortestFirstSorted(s - {p});
      ShortestFirstLists(s - {p});
      var r := ShortestFirst(s);
      assert r == [p] + rest;
      forall i, j | 0 <= i < j < |r|
        ensures |r[i]| <= |r[j]|
      {
        assert r[j] == rest[j - 1] && rest[j - 1] in s - {p};
        if i > 0 {
          assert r[i] == rest[i - 1] && |rest[i - 1]| <= |rest[j - 1]|;
        } else {
          assert r[i] == p;
        }
      }
    }
  }

  /** Some enumerator meets the listing assumptions: shortest paths first. */
  lemma EnumeratorExists()
    ensures exists os :: ValidEnumerator(os)
  {
    var list := (s: set<Path>) => ShortestFirst(s);
    var os := Enumerator(list, list);
    forall s
      ensures Lists(os.dirs(s), s) && AncestorsFirst(os.dirs(s))
    {
      assert os.dirs(s) == ShortestFirst(s);
      ShortestFirstLists(s);
      ShortestFirstSorted(s);
    }
    assert ValidEnumerator(os);
  }
}
