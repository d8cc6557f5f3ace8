/**
 * What a reconciliation cycle achieves: convergence of a completed cycle,
 * idempotence, the exact condition under which the cycle as written aborts,
 * and the corrected cycle's total correctness.
 */
module Properties {
  import opened Wrappers
  import opened Paths
  import opened FileSystem
  import opened Passes
  import opened Synchronizer

  /** When both file passes complete, the replica holds exactly the source's files. */
  lemma FilePassesConverge(src: Tree, rep: Tree, sourceFiles: seq<Path>, replicaFiles: seq<Path>)
    requires Valid(src) && Valid(rep)
    requires Lists(sourceFiles, src.files.Keys) && Lists(replicaFiles, rep.files.Keys)
    ensures var r := FilePasses(src, rep, sourceFiles, replicaFiles);
      r.failure.None? ==> r.tree.files == src.files
  {
    var r := FilePasses(src, rep, sourceFiles, replicaFiles);
    if r.failure.None? {
      FilePassesFileSet(src, rep, sourceFiles, replicaFiles);
      FilePassesFileContents(src, rep, sourceFiles, replicaFiles);
    }
  }

  lemma FilePassesFileSet(src: Tree, rep: Tree, sourceFiles: seq<Path>, replicaFiles: seq<Path>)
    requires Valid(src) && Valid(rep)
    requires Lists(sourceFiles, src.files.Keys) && Lists(replicaFiles, rep.files.Keys)
    ensures var r := FilePasses(src, rep, sourceFiles, replicaFiles);
      r.failure.None? ==> r.tree.files.Keys == src.files.Keys
  {
    var copied := CopyPass(src, rep, sourceFiles);
    if copied.failure.None? {
      var deleted := DeletePass(src, copied.tree, replicaFiles);
      if deleted.failure.None? {
        CopyPassKeeps(src, rep, sourceFiles);
        CopyPassNoTornState(src, rep, sourceFiles);
        CopyPassDelivers(src, rep, sourceFiles);
        DeletePassRemovesAll(src, copied.tree, replicaFiles);
        DeletePassLogsOnce(src, copied.tree, replicaFiles);
        forall p | p in deleted.tree.files
          ensures p in src.files
        {
          assert p in copied.tree.files;
        }
        forall p | p in src.files
          ensures p in deleted.tree.files
        {
          assert p in sourceFiles;
        }
      }
    }
  }

  /** When both file passes complete, every source file is in the replica with the source's bytes. */
  lemma FilePassesFileContents(src: Tree, rep: Tree, sourceFiles: seq<Path>, replicaFiles: seq<Path>)
    requires Valid(src) && Valid(rep)
    requires Lists(sourceFiles, src.files.Keys) && Lists(replicaFiles, rep.files.Keys)
    ensures var r := FilePasses(src, rep, sourceFiles, replicaFiles);
      r.failure.None? ==> forall p :: p in src.files ==> p in r.tree.files && r.tree.files[p] == src.files[p]
  {
    var copied := CopyPass(src, rep, sourceFiles);
    if copied.failure.None? {
      CopyPassKeeps(src, rep, sourceFiles);
      CopyPassNoTornState(src, rep, sourceFiles);
      CopyPassDelivers(src, rep, sourceFiles);
      forall p | p in src.files
        ensures p in copied.tree.files && copied.tree.files[p] == src.files[p]
      {
        assert p in sourceFiles;
      }
    }
  }

  /**
   * The file passes cannot throw unless a source file meets a replica
   * directory or a source directory meets a replica file.
   */
  lemma FilePassesSucceed(src: Tree, rep: Tree, sourceFiles: seq<Path>, replicaFiles: seq<Path>)
    requires Valid(src) && Valid(rep)
    requires Lists(sourceFiles, src.files.Keys) && Lists(replicaFiles, rep.files.Keys)
    requires Compatible(src, rep)
    ensures FilePasses(src, rep, sourceFiles, replicaFiles).failure.None?
  {
    var copied := CopyPass(src, rep, sourceFiles);
    forall i | 0 <= i < |replicaFiles| && replicaFiles[i] !in src.files
      ensures replicaFiles[i] !in copied.tree.dirs
      ensures DirExists(copied.tree, Parent(replicaFiles[i]))
    {
      assert replicaFiles[i] in rep.files;
    }
  }

  /**
   * Orphans of a listing of replica directories lie outside the source, and
   * no source directory lies below one.
   */
  lemma OrphansAreOutsideSource(src: Tree, live: Tree, todo: seq<Path>)
    requires Valid(src) && Valid(live)
    requires forall i :: 0 <= i < |todo| ==> todo[i] in live.dirs
    ensures forall q :: q in src.dirs ==> !Below(Orphans(src, todo), q)
    ensures forall o :: o in Orphans(src, todo) ==> o in live.dirs && o != [] && o !in src.dirs
  {
    forall q | q in src.dirs && Below(Orphans(src, todo), q)
      ensures false
    {
      var o :| o in Orphans(src, todo) && IsPrefix(o, q);
      AncestorsExist(src, q, o);
    }
  }

  /**
   * What either delete pass leaves when it completes: everything outside the
   * orphans kept, nothing at or below an orphan.
   */
  lemma DeletePassOutcome(src: Tree, live: Tree, todo: seq<Path>, corrected: bool)
    requires Valid(live)
    requires forall i :: 0 <= i < |todo| ==> todo[i] !in live.files
    ensures var r :=
        if corrected then FixedDeleteDirectoriesPass(src, live, todo)
        else DeleteDirectoriesPass(src, live, todo);
      && (forall p :: p in live.files && !Below(Orphans(src, todo), p) ==> p in r.tree.files)
      && (forall q :: q in live.dirs && !Below(Orphans(src, todo), q) ==> q in r.tree.dirs)
      && (r.failure.None? ==>
            && (forall p :: p in r.tree.files ==> !Below(Orphans(src, todo), p))
            && (forall q :: q in r.tree.dirs ==> !Below(Orphans(src, todo), q)))
  {
    if corrected {
      FixedDeleteDirectoriesPassKeeps(src, live, todo);
      FixedDeleteDirectoriesPassRemoves(src, live, todo);
    } else {
      DeleteDirectoriesPassKeeps(src, live, todo);
      DeleteDirectoriesPassRemoves(src, live, todo);
    }
  }

  /**
   * When the directory passes complete on a replica whose files already match
   * the source, the replica equals the source (as written or corrected).
   */
  lemma DirectoryPassesConverge(src: Tree, live: Tree, sourceDirs: seq<Path>, replicaDirs: seq<Path>, corrected: bool)
    requires Valid(src) && Valid(live)
    requires Lists(sourceDirs, src.dirs) && Lists(replicaDirs, live.dirs)
    requires live.files == src.files
    ensures var r := DirectoryPasses(src, live, sourceDirs, replicaDirs, corrected);
      r.failure.None? ==> r.tree == src
  {
    var r := DirectoryPasses(src, live, sourceDirs, replicaDirs, corrected);
    if r.failure.None? {
      DirectoryPassesDirs(src, live, sourceDirs, replicaDirs, corrected);
      DirectoryPassesFiles(src, live, sourceDirs, replicaDirs, corrected);
    }
  }

  lemma DirectoryPassesDirs(src: Tree, live: Tree, sourceDirs: seq<Path>, replicaDirs: seq<Path>, corrected: bool)
    requires Valid(src) && Valid(live)
    requires Lists(sourceDirs, src.dirs) && Lists(replicaDirs, live.dirs)
    ensures var r := DirectoryPasses(src, live, sourceDirs, replicaDirs, corrected);
      r.failure.None? ==> r.tree.dirs == src.dirs
  {
    var created := CreateDirectoriesPass(src, live, sourceDirs);
    if created.failure.None? {
      var deleted :=
        if corrected then FixedDeleteDirectoriesPass(src, created.tree, replicaDirs)
        else DeleteDirectoriesPass(src, created.tree, replicaDirs);
      if deleted.failure.None? {
        CreateDirectoriesPassCreatesAll(src, live, sourceDirs);
        CreateDirectoriesPassLogsMissing(src, live, sourceDirs);
        CreateDirectoriesPassLogsOnce(src, live, sourceDirs);
        OrphansAreOutsideSource(src, live, replicaDirs);
        DeletePassOutcome(src, created.tree, replicaDirs, corrected);
        var orphans := Orphans(src, replicaDirs);
        forall q | q in src.dirs
          ensures q in deleted.tree.dirs
        {
          assert q in sourceDirs;
        }
        forall q | q in deleted.tree.dirs
          ensures q in src.dirs
        {
          if q !in src.dirs {
            assert q in replicaDirs;
            assert q in orphans;
            assert Below(orphans, q);
          }
        }
      }
    }
  }

  lemma DirectoryPassesFiles(src: Tree, live: Tree, sourceDirs: seq<Path>, replicaDirs: seq<Path>, corrected: bool)
    requires Valid(src) && Valid(live)
    requires Lists(sourceDirs, src.dirs) && Lists(replicaDirs, live.dirs)
    requires live.files == src.files
    ensures var r := DirectoryPasses(src, live, sourceDirs, replicaDirs, corrected);
      r.failure.None? ==> r.tree.files == src.files
  {
    var created := CreateDirectoriesPass(src, live, sourceDirs);
    if created.failure.None? {
      var deleted :=
        if corrected then FixedDeleteDirectoriesPass(src, created.tree, replicaDirs)
        else DeleteDirectoriesPass(src, created.tree, replicaDirs);
      if deleted.failure.None? {
        SourceFilesOutsideOrphans(src, live, replicaDirs);
        DeletePassOutcome(src, created.tree, replicaDirs, corrected);
        assert forall p :: p in src.files ==> p in deleted.tree.files;
        assert DirectoryPasses(src, live, sourceDirs, replicaDirs, corrected).tree == deleted.tree;
        assert deleted.tree.files.Keys == src.files.Keys;
      }
    }
  }

  /** No source file lies at or below a listed replica directory the source lacks. */
  lemma SourceFilesOutsideOrphans(src: Tree, live: Tree, replicaDirs: seq<Path>)
    requires Valid(src) && Valid(live)
    requires forall i :: 0 <= i < |replicaDirs| ==> replicaDirs[i] in live.dirs
    requires live.files == src.files
    ensures forall p :: p in src.files ==> !Below(Orphans(src, replicaDirs), p)
  {
    OrphansAreOutsideSource(src, live, replicaDirs);
    forall p | p in src.files && Below(Orphans(src, replicaDirs), p)
      ensures false
    {
      var o :| o in Orphans(src, replicaDirs) && IsPrefix(o, p);
      assert o in live.dirs && o != [] && o != p;
      FileAncestorsExist(src, p, o);
    }
  }

  // ---------------------------------------------------------------------
  // Whole cycles
  // ---------------------------------------------------------------------

  /** A cycle that completes without error leaves the replica equal to the source. */
  lemma Convergence(src: Tree, rep: Tree, os: Enumerator, corrected: bool)
    requires Valid(src) && Valid(rep) && ValidEnumerator(os)
    ensures var o := SynchronizeFolders(src, rep, os, corrected);
      !o.aborted ==> o.replica == src
  {
    var sourceFiles := os.files(src.files.Keys);
    var replicaFiles := os.files(rep.files.Keys);
    assert Lists(sourceFiles, src.files.Keys) && Lists(replicaFiles, rep.files.Keys);
    var files := FilePasses(src, rep, sourceFiles, replicaFiles);
    if files.failure.None? {
      FilePassesConverge(src, rep, sourceFiles, replicaFiles);
      var sourceDirs := os.dirs(src.dirs);
      var replicaDirs := os.dirs(files.tree.dirs);
      assert Lists(sourceDirs, src.dirs) && Lists(replicaDirs, files.tree.dirs);
      DirectoryPassesConverge(src, files.tree, sourceDirs, replicaDirs, corrected);
    }
  }

  /**
   * A cycle run on a replica that already equals the source changes nothing
   * and logs only its start and completion.
   */
  lemma QuietWhenConverged(t: Tree, os: Enumerator, corrected: bool)
    requires Valid(t) && ValidEnumerator(os)
    ensures SynchronizeFolders(t, t, os, corrected) == Outcome(t, [Started, Completed], false)
  {
    var files := os.files(t.files.Keys);
    assert Lists(files, t.files.Keys);
    assert FilePasses(t, t, files, files) == Pass(t, [], None);
    var dirs := os.dirs(t.dirs);
    assert Lists(dirs, t.dirs);
    assert forall i :: 0 <= i < |dirs| ==> DirExists(t, dirs[i]);
    assert DirectoryPasses(t, t, dirs, dirs, corrected) == Pass(t, [], None);
    assert Finish(Pass(t, [], None)).log == [Started, Completed];
  }

  /**
   * Idempotence: after a cycle that completes, a second cycle (whatever order
   * the listings come in) changes nothing and logs only its start and
   * completion.
   */
  lemma Idempotence(src: Tree, rep: Tree, os: Enumerator, os2: Enumerator, corrected: bool)
    requires Valid(src) && Valid(rep) && ValidEnumerator(os) && ValidEnumerator(os2)
    ensures var o := SynchronizeFolders(src, rep, os, corrected);
      !o.aborted ==>
        SynchronizeFolders(src, o.replica, os2, corrected) == Outcome(o.replica, [Started, Completed], false)
  {
    var o := SynchronizeFolders(src, rep, os, corrected);
    if !o.aborted {
      Convergence(src, rep, os, corrected);
      QuietWhenConverged(src, os2, corrected);
    }
  }

  /** Some directory of `dirs` that the source lacks has another directory of `dirs` below it. */
  predicate NestedOrphans(src: Tree, dirs: set<Path>) {
    exists a, b :: a in dirs && b in dirs && IsProperPrefix(a, b) && a !in src.dirs
  }

  /**
   * On a listing of directories that all still exist, ancestors first, the
   * delete pass is doomed exactly when the listed directories nest an orphan.
   */
  lemma DoomedIffNested(src: Tree, live: Tree, todo: seq<Path>, dirs: set<Path>)
    requires Valid(src) && Valid(live)
    requires Lists(todo, dirs) && AncestorsFirst(todo)
    requires dirs <= live.dirs
    ensures Doomed(src, live, todo) <==> NestedOrphans(src, dirs)
  {
    if Doomed(src, live, todo) {
      var j :| 0 <= j < |todo| && !DirExists(src, todo[j]) &&
        (todo[j] !in live.dirs ||
         exists i :: 0 <= i < j && !DirExists(src, todo[i]) && IsPrefix(todo[i], todo[j]));
      var i :| 0 <= i < j && !DirExists(src, todo[i]) && IsPrefix(todo[i], todo[j]);
      assert todo[i] != todo[j];
      assert IsProperPrefix(todo[i], todo[j]);
    }
    if NestedOrphans(src, dirs) {
      var a, b :| a in dirs && b in dirs && IsProperPrefix(a, b) && a !in src.dirs;
      var i :| 0 <= i < |todo| && todo[i] == a;
      var j :| 0 <= j < |todo| && todo[j] == b;
      assert i < j;
      assert a != [] && b != [] by {
        assert [] !in live.dirs;
      }
      assert b !in src.dirs by {
        if b in src.dirs {
          AncestorsExist(src, b, a);
        }
      }
      assert IsPrefix(todo[i], todo[j]);
    }
  }

  /** Adding source directories to a replica's directories neither creates nor removes a nested orphan. */
  lemma NestedOrphansIgnoreSourceDirs(src: Tree, before: set<Path>, after: set<Path>)
    requires Valid(src)
    requires before <= after <= before + src.dirs && [] !in after
    ensures NestedOrphans(src, after) <==> NestedOrphans(src, before)
  {
    if NestedOrphans(src, after) {
      var a, b :| a in after && b in after && IsProperPrefix(a, b) && a !in src.dirs;
      if b in src.dirs {
        AncestorsExist(src, b, a);
      }
    }
  }

  /**
   * The cycle as written, on trees without a file/directory clash, aborts
   * exactly when the replica holds a directory the source lacks with another
   * directory below it: the snapshot lists both, the first `Directory.Delete`
   * takes the inner one with it, and the second throws.
   */
  lemma AbortsIffNestedOrphans(src: Tree, rep: Tree, os: Enumerator)
    requires Valid(src) && Valid(rep) && ValidEnumerator(os)
    requires Compatible(src, rep)
    ensures SynchronizeFolders(src, rep, os, false).aborted <==> NestedOrphans(src, rep.dirs)
  {
    var sourceFiles := os.files(src.files.Keys);
    var replicaFiles := os.files(rep.files.Keys);
    assert Lists(sourceFiles, src.files.Keys) && Lists(replicaFiles, rep.files.Keys);
    FilePassesSucceed(src, rep, sourceFiles, replicaFiles);
    FilePassesConverge(src, rep, sourceFiles, replicaFiles);
    var files := FilePasses(src, rep, sourceFiles, replicaFiles).tree;
    var sourceDirs := os.dirs(src.dirs);
    var replicaDirs := os.dirs(files.dirs);
    assert Lists(sourceDirs, src.dirs);
    assert Lists(replicaDirs, files.dirs) && AncestorsFirst(replicaDirs);
    var created := CreateDirectoriesPass(src, files, sourceDirs);
    assert created.failure.None?;
    DeleteDirectoriesPassFails(src, created.tree, replicaDirs);
    DoomedIffNested(src, created.tree, replicaDirs, files.dirs);
    NestedOrphansIgnoreSourceDirs(src, rep.dirs, files.dirs);
  }

  /**
   * The corrected cycle, on trees without a file/directory clash, always
   * completes and leaves the replica equal to the source.
   */
  lemma CorrectedCycleConverges(src: Tree, rep: Tree, os: Enumerator)
    requires Valid(src) && Valid(rep) && ValidEnumerator(os)
    requires Compatible(src, rep)
    ensures var o := SynchronizeFolders(src, rep, os, true);
      !o.aborted && o.replica == src
  {
    var sourceFiles := os.files(src.files.Keys);
    var replicaFiles := os.files(rep.files.Keys);
    assert Lists(sourceFiles, src.files.Keys) && Lists(replicaFiles, rep.files.Keys);
    FilePassesSucceed(src, rep, sourceFiles, replicaFiles);
    FilePassesConverge(src, rep, sourceFiles, replicaFiles);
    var files := FilePasses(src, rep, sourceFiles, replicaFiles).tree;
    var sourceDirs := os.dirs(src.dirs);
    assert Lists(sourceDirs, src.dirs);
    assert CreateDirectoriesPass(src, files, sourceDirs).failure.None?;
    Convergence(src, rep, os, true);
  }
}
