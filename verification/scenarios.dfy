/**
 * Concrete cycles, for every order the operating system may list entries in:
 * two consecutive cycles on a small tree with one subdirectory, and the
 * smallest replica on which the cycle as written aborts.
 */
module Scenarios {
  import opened Wrappers
  import opened Paths
  import opened FileSystem
  import opened Passes
  import opened Synchronizer
  import opened Properties
  import opened Journal

  const A: Path := ["a.txt"]
  const B: Path := ["dir", "b.txt"]
  const C: Path := ["c.txt"]
  const Dir: Path := ["dir"]

  /** The source of the first cycle: `a.txt` holding "X" and `dir/b.txt` holding "Y". */
  function FirstSource(): (t: Tree)
    ensures Valid(t)
  {
    assert Parent(B) == Dir;
    Tree(map[A := [88], B := [89]], {Dir})
  }

  /** The source of the second cycle: `a.txt` removed, `c.txt` holding "Z" added. */
  function SecondSource(): (t: Tree)
    ensures Valid(t)
  {
    assert Parent(B) == Dir;
    Tree(map[B := [89], C := [90]], {Dir})
  }

  /** Onto an empty replica, exactly `a.txt` and `dir/b.txt` need a copy. */
  lemma FirstSourceNeedsCopy()
    ensures forall p :: p in FirstSource().files && NeedsCopy(FirstSource(), Empty, p) <==> p == A || p == B
  {
    forall p
      ensures p in FirstSource().files && NeedsCopy(FirstSource(), Empty, p) <==> p == A || p == B
    {
      assert p in FirstSource().files <==> p == A || p == B;
    }
  }

  /** The only source directory, `dir`, holds a file. */
  lemma FirstSourceDirectories()
    ensures forall d :: d in FirstSource().dirs ==> HoldsFiles(FirstSource(), d)
  {
    assert FirstSource().dirs == {Dir};
    assert B in FirstSource().files && IsProperPrefix(Dir, B);
  }

  /** Against the first source, only `c.txt` of the second needs a copy. */
  lemma SecondSourceNeedsCopy()
    ensures forall p :: p in SecondSource().files && NeedsCopy(SecondSource(), FirstSource(), p) <==> p == C
  {
    forall p
      ensures p in SecondSource().files && NeedsCopy(SecondSource(), FirstSource(), p) <==> p == C
    {
      assert p in SecondSource().files <==> p == B || p == C;
    }
  }

  /** Of the first source's files, only `a.txt` is missing from the second. */
  lemma SecondSourceDropsA()
    ensures forall p :: p in FirstSource().files && p !in SecondSource().files <==> p == A
  {
    forall p
      ensures p in FirstSource().files && p !in SecondSource().files <==> p == A
    {
      assert p in FirstSource().files <==> p == A || p == B;
      assert p in SecondSource().files <==> p == B || p == C;
    }
  }

  /** Every entry of a completed cycle is its start, its completion, or a change. */
  lemma CompletedEntries(src: Tree, rep: Tree, os: Enumerator)
    requires Valid(src) && Valid(rep) && ValidEnumerator(os)
    ensures var o := SynchronizeFolders(src, rep, os, false);
      !o.aborted ==> forall e :: e in o.log ==> e == Started || e == Completed || IsAction(e)
  {
    var o := SynchronizeFolders(src, rep, os, false);
    if !o.aborted {
      forall e | e in o.log
        ensures e == Started || e == Completed || IsAction(e)
      {
        var i :| 0 <= i < |o.log| && o.log[i] == e;
      }
    }
  }

  /** The first cycle, onto an empty replica, completes and leaves the replica equal to the source. */
  lemma FirstCycleCompletes(os: Enumerator)
    requires ValidEnumerator(os)
    ensures var o := SynchronizeFolders(FirstSource(), Empty, os, false);
      !o.aborted && o.replica == FirstSource()
  {
    assert !NestedOrphans(FirstSource(), Empty.dirs);
    AbortsIffNestedOrphans(FirstSource(), Empty, os);
    Convergence(FirstSource(), Empty, os, false);
  }

  /** The first cycle logs a copy of `a.txt` and of `dir/b.txt`, and of nothing else. */
  lemma FirstCycleCopies(os: Enumerator)
    requires ValidEnumerator(os)
    ensures var o := SynchronizeFolders(FirstSource(), Empty, os, false);
      forall p :: Copied(p) in o.log <==> p == A || p == B
  {
    FirstSourceNeedsCopy();
    FirstCycleCompletes(os);
    CycleLog(FirstSource(), Empty, os);
  }

  /**
   * The first cycle logs no deletion and no directory creation: `dir` holds
   * `dir/b.txt`, so copying that file made it.
   */
  lemma FirstCycleOnlyCopies(os: Enumerator)
    requires ValidEnumerator(os)
    ensures var o := SynchronizeFolders(FirstSource(), Empty, os, false);
      && (forall e :: e in o.log ==> !e.Deleted? && !e.CreatedDirectory? && !e.DeletedDirectory?)
      && NoDuplicates(o.log)
  {
    FirstSourceDirectories();
    FirstCycleCompletes(os);
    CycleLog(FirstSource(), Empty, os);
  }

  /** A bracketed log of changes that copies `a.txt` and `dir/b.txt` and does nothing else. */
  lemma FirstLog(log: seq<Entry>)
    requires |log| >= 2 && log[0] == Started && log[|log| - 1] == Completed
    requires forall e :: e in log ==> e == Started || e == Completed || IsAction(e)
    requires forall p :: Copied(p) in log <==> p == A || p == B
    requires forall e :: e in log ==> !e.Deleted? && !e.CreatedDirectory? && !e.DeletedDirectory?
    ensures forall e :: e in log <==> e in {Started, Copied(A), Copied(B), Completed}
  {
    assert Started in log && Completed in log;
  }

  /** A bracketed log of changes that copies `c.txt`, deletes `a.txt`, and does nothing else. */
  lemma SecondLog(log: seq<Entry>)
    requires |log| >= 2 && log[0] == Started && log[|log| - 1] == Completed
    requires forall e :: e in log ==> e == Started || e == Completed || IsAction(e)
    requires forall p :: Copied(p) in log <==> p == C
    requires forall p :: Deleted(p) in log <==> p == A
    requires forall e :: e in log ==> !e.CreatedDirectory? && !e.DeletedDirectory?
    ensures forall e :: e in log <==> e in {Started, Copied(C), Deleted(A), Completed}
  {
    assert Started in log && Completed in log;
  }

  /**
   * The first example cycle: both files are copied and logged,
   * and `dir` is not logged as created, because copying `dir/b.txt` already
   * made it before the directory pass looks for it.
   */
  lemma FirstCycle(os: Enumerator)
    requires ValidEnumerator(os)
    ensures var o := SynchronizeFolders(FirstSource(), Empty, os, false);
      && !o.aborted && o.replica == FirstSource()
      && (forall e :: e in o.log <==> e in {Started, Copied(A), Copied(B), Completed})
      && NoDuplicates(o.log)
  {
    var o := SynchronizeFolders(FirstSource(), Empty, os, false);
    FirstCycleCompletes(os);
    CompletedEntries(FirstSource(), Empty, os);
    FirstCycleCopies(os);
    FirstCycleOnlyCopies(os);
    FirstLog(o.log);
  }

  /** The second cycle completes and leaves the replica equal to the new source. */
  lemma SecondCycleCompletes(os: Enumerator)
    requires ValidEnumerator(os)
    ensures var o := SynchronizeFolders(SecondSource(), FirstSource(), os, false);
      !o.aborted && o.replica == SecondSource()
  {
    assert !NestedOrphans(SecondSource(), FirstSource().dirs);
    AbortsIffNestedOrphans(SecondSource(), FirstSource(), os);
    Convergence(SecondSource(), FirstSource(), os, false);
  }

  /** The second cycle copies only `c.txt`: `dir/b.txt` already holds the source's bytes. */
  lemma SecondCycleCopies(os: Enumerator)
    requires ValidEnumerator(os)
    ensures var o := SynchronizeFolders(SecondSource(), FirstSource(), os, false);
      forall p :: Copied(p) in o.log <==> p == C
  {
    SecondSourceNeedsCopy();
    SecondCycleCompletes(os);
    CycleLog(SecondSource(), FirstSource(), os);
  }

  /** The second cycle deletes only `a.txt`. */
  lemma SecondCycleDeletes(os: Enumerator)
    requires ValidEnumerator(os)
    ensures var o := SynchronizeFolders(SecondSource(), FirstSource(), os, false);
      forall p :: Deleted(p) in o.log <==> p == A
  {
    SecondSourceDropsA();
    SecondCycleCompletes(os);
    CycleLog(SecondSource(), FirstSource(), os);
  }

  /** The second cycle creates or deletes no directory, and logs nothing twice. */
  lemma SecondCycleKeepsDirectories(os: Enumerator)
    requires ValidEnumerator(os)
    ensures var o := SynchronizeFolders(SecondSource(), FirstSource(), os, false);
      && (forall e :: e in o.log ==> !e.CreatedDirectory? && !e.DeletedDirectory?)
      && NoDuplicates(o.log)
  {
    var src := SecondSource();
    var rep := FirstSource();
    assert src.dirs == {Dir} && rep.dirs == {Dir};
    SecondCycleCompletes(os);
    CycleLog(src, rep, os);
  }

  /**
   * The second example cycle, after `a.txt` left the source and
   * `c.txt` joined it: `c.txt` is copied and `a.txt` deleted, and the
   * unchanged `dir/b.txt` is neither touched nor logged.
   */
  lemma SecondCycle(os: Enumerator)
    requires ValidEnumerator(os)
    ensures var o := SynchronizeFolders(SecondSource(), FirstSource(), os, false);
      && !o.aborted && o.replica == SecondSource()
      && (forall e :: e in o.log <==> e in {Started, Copied(C), Deleted(A), Completed})
      && NoDuplicates(o.log)
  {
    var o := SynchronizeFolders(SecondSource(), FirstSource(), os, false);
    SecondCycleCompletes(os);
    CompletedEntries(SecondSource(), FirstSource(), os);
    SecondCycleCopies(os);
    SecondCycleDeletes(os);
    SecondCycleKeepsDirectories(os);
    SecondLog(o.log);
  }

  const Outer: Path := ["a"]
  const Inner: Path := ["a", "b"]

  /** A replica holding directory `a` with `a/b` inside it, and nothing else. */
  function NestedReplica(): (t: Tree)
    ensures Valid(t)
  {
    assert Parent(Inner) == Outer;
    Tree(map[], {Outer, Inner})
  }

  /** The only listing of nothing is the empty one. */
  lemma ListingOfNothing(s: seq<Path>, entries: set<Path>)
    requires Lists(s, entries)
    ensures entries == {} ==> s == []
  {
    if s != [] {
      assert s[0] in entries;
    }
  }

  /** The only ancestors-first listing of `a` and `a/b` is `a`, then `a/b`. */
  lemma ListingOfNested(s: seq<Path>)
    requires Lists(s, {Outer, Inner}) && AncestorsFirst(s)
    ensures s == [Outer, Inner]
  {
    assert Outer in s && Inner in s;
    var i :| 0 <= i < |s| && s[i] == Outer;
    var j :| 0 <= j < |s| && s[j] == Inner;
    assert IsProperPrefix(s[i], s[j]);
    assert i < j;
    assert s[0] in {Outer, Inner} && s[1] in {Outer, Inner} && s[|s| - 1] in {Outer, Inner};
    assert i == 0 && j == 1 && j == |s| - 1;
  }

  /**
   * The cycle as written on an empty source and `NestedReplica()`: `a` is
   * deleted together with `a/b`, then deleting `a/b` throws, and the error
   * ends the cycle (the replica is nonetheless left equal to the source).
   */
  lemma NestedOrphansAbort(os: Enumerator)
    requires ValidEnumerator(os)
    ensures SynchronizeFolders(Empty, NestedReplica(), os, false) ==
      Outcome(Empty, [Started, DeletedDirectory(Outer), Error(DirectoryNotFound(Inner)), Completed], true)
  {
    assert Empty.files.Keys == {} && NestedReplica().files.Keys == {};
    ListingOfNothing(os.files({}), {});
    ListingOfNothing(os.dirs({}), {});
    ListingOfNested(os.dirs(NestedReplica().dirs));
    assert FilePasses(Empty, NestedReplica(), [], []) == Pass(NestedReplica(), [], None);
    assert CreateDirectoriesPass(Empty, NestedReplica(), []) == Pass(NestedReplica(), [], None);
    assert IsPrefix(Outer, Inner);
    var pruned := DeleteDirectory(NestedReplica(), Outer);
    assert pruned.Success? && pruned.value.dirs == {} && pruned.value.files == map[];
    assert pruned == Success(Empty);
    assert DeleteDirectoriesPass(Empty, Empty, [Inner]) == Pass(Empty, [], Some(DirectoryNotFound(Inner)));
    assert DeleteDirectoriesPass(Empty, NestedReplica(), [Outer, Inner]) ==
      Pass(Empty, [DeletedDirectory(Outer)], Some(DirectoryNotFound(Inner)));
  }

  /** The corrected cycle on the same trees skips `a/b`, already gone, and completes. */
  lemma NestedOrphansCorrected(os: Enumerator)
    requires ValidEnumerator(os)
    ensures SynchronizeFolders(Empty, NestedReplica(), os, true) ==
      Outcome(Empty, [Started, DeletedDirectory(Outer), Completed], false)
  {
    assert Empty.files.Keys == {} && NestedReplica().files.Keys == {};
    ListingOfNothing(os.files({}), {});
    ListingOfNothing(os.dirs({}), {});
    ListingOfNested(os.dirs(NestedReplica().dirs));
    assert FilePasses(Empty, NestedReplica(), [], []) == Pass(NestedReplica(), [], None);
    assert CreateDirectoriesPass(Empty, NestedReplica(), []) == Pass(NestedReplica(), [], None);
    assert IsPrefix(Outer, Inner);
    var pruned := DeleteDirectory(NestedReplica(), Outer);
    assert pruned.Success? && pruned.value.dirs == {} && pruned.value.files == map[];
    assert pruned == Success(Empty);
    assert FixedDeleteDirectoriesPass(Empty, Empty, [Inner]) == Pass(Empty, [], None);
    assert FixedDeleteDirectoriesPass(Empty, NestedReplica(), [Outer, Inner]) ==
      Pass(Empty, [DeletedDirectory(Outer)], None);
  }

  const Kept: Path := ["y"]
  const KeptChild: Path := ["y", "z"]

  /** A source holding only directory `y`. */
  function KeptSource(): (t: Tree)
    ensures Valid(t)
  {
    Tree(map[], {Kept})
  }

  /** A replica holding `a`, `a/b`, `y` and `y/z`. */
  function TwoBranchReplica(): (t: Tree)
    ensures Valid(t)
  {
    assert Parent(Inner) == Outer && Parent(KeptChild) == Kept;
    Tree(map[], {Outer, Inner, Kept, KeptChild})
  }

  /**
   * An aborted pass can leave orphans behind: listed breadth first, the pass
   * as written deletes `a`, skips `y`, throws on `a/b`, and never reaches the
   * orphan `y/z`.
   */
  lemma AbortLeavesLaterOrphans()
    ensures var r := DeleteDirectoriesPass(KeptSource(), TwoBranchReplica(), [Outer, Kept, Inner, KeptChild]);
      && r.failure == Some(DirectoryNotFound(Inner))
      && r.log == [DeletedDirectory(Outer)]
      && KeptChild in r.tree.dirs && KeptChild !in KeptSource().dirs
  {
    var pruned := DeleteDirectory(TwoBranchReplica(), Outer);
    assert Kept[0] != Outer[0] by {
      assert Kept[0][0] != Outer[0][0];
    }
    assert KeptChild[..1] == Kept;
    assert IsPrefix(Outer, Inner) && !IsPrefix(Outer, Kept) && !IsPrefix(Outer, KeptChild);
    assert pruned.Success? && Inner !in pruned.value.dirs && KeptChild in pruned.value.dirs;
    var rest := [Outer, Kept, Inner, KeptChild][1..];
    assert rest == [Kept, Inner, KeptChild];
    assert DeleteDirectoriesPass(KeptSource(), pruned.value, [Inner, KeptChild]) ==
      Pass(pruned.value, [], Some(DirectoryNotFound(Inner)));
    assert DeleteDirectoriesPass(KeptSource(), pruned.value, rest) ==
      Pass(pruned.value, [], Some(DirectoryNotFound(Inner)));
  }
}
