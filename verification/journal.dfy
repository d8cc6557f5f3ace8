/**
 * What a completed cycle of the synchronizer as written logs: exactly one
 * entry per change it made, and which changes those are, stated against the
 * replica and source as they stood before the cycle.
 */
module Journal {
  import opened Wrappers
  import opened Paths
  import opened FileSystem
  import opened Passes
  import opened Synchronizer
  import opened Properties

  /** Some file of `t` lies below directory `d`. */
  predicate HoldsFiles(t: Tree, d: Path) {
    exists f :: f in t.files && IsProperPrefix(d, f)
  }

  /**
   * When the file passes complete, they log one "Copied/Updated" entry per
   * source file the replica lacked or held with other content and one
   * "Deleted" entry per replica file the source lacks, and the directories
   * they leave are the replica's plus those on the way to a source file.
   */
  lemma FilePassesLog(src: Tree, rep: Tree, sourceFiles: seq<Path>, replicaFiles: seq<Path>)
    requires Valid(src) && Valid(rep)
    requires Lists(sourceFiles, src.files.Keys) && Lists(replicaFiles, rep.files.Keys)
    ensures var r := FilePasses(src, rep, sourceFiles, replicaFiles);
      r.failure.None? ==>
        && (forall p :: Copied(p) in r.log <==> p in src.files && NeedsCopy(src, rep, p))
        && (forall p :: Deleted(p) in r.log <==> p in rep.files && p !in src.files)
        && NoDuplicates(r.log)
        && (forall d :: d in r.tree.dirs && d !in rep.dirs ==> HoldsFiles(src, d))
        && (forall d :: d in src.dirs && HoldsFiles(src, d) ==> d in r.tree.dirs)
  {
    var r := FilePasses(src, rep, sourceFiles, replicaFiles);
    var copied := CopyPass(src, rep, sourceFiles);
    if r.failure.None? {
      var deleted := DeletePass(src, copied.tree, replicaFiles);
      assert r == Pass(deleted.tree, copied.log + deleted.log, deleted.failure);
      CopyPassLogSound(src, rep, sourceFiles);
      CopyPassLogOnce(src, rep, sourceFiles);
      CopyPassLogComplete(src, rep, sourceFiles);
      CopyPassNewDirs(src, rep, sourceFiles);
      DeletePassRemovesAll(src, copied.tree, replicaFiles);
      DeletePassLogsOnce(src, copied.tree, replicaFiles);
      forall p | Copied(p) in r.log
        ensures p in src.files && NeedsCopy(src, rep, p)
      {
        assert Copied(p) in copied.log;
      }
      forall p | Deleted(p) in r.log
        ensures p in rep.files && p !in src.files
      {
        assert Deleted(p) in deleted.log;
      }
      forall p | p in src.files && NeedsCopy(src, rep, p)
        ensures Copied(p) in r.log
      {
        assert p in sourceFiles;
      }
      forall p | p in rep.files && p !in src.files
        ensures Deleted(p) in r.log
      {
        assert p in replicaFiles;
      }
      NoDuplicatesAppend(copied.log, deleted.log);
      forall d | d in r.tree.dirs && d !in rep.dirs
        ensures HoldsFiles(src, d)
      {
        var e :| e in copied.log && IsProperPrefix(d, e.path);
        assert e.path in sourceFiles;
      }
      FilePassesConverge(src, rep, sourceFiles, replicaFiles);
      forall d | d in src.dirs && HoldsFiles(src, d)
        ensures d in r.tree.dirs
      {
        var f :| f in src.files && IsProperPrefix(d, f);
        FileAncestorsExist(r.tree, f, d);
      }
    }
  }

  /**
   * When the directory passes as written complete, they log one "Created
   * directory" entry per source directory the replica lacked and one "Deleted
   * directory" entry per replica directory the source lacks.
   */
  lemma DirectoryPassesLog(src: Tree, live: Tree, sourceDirs: seq<Path>, replicaDirs: seq<Path>)
    requires Valid(src) && Valid(live)
    requires Lists(sourceDirs, src.dirs) && AncestorsFirst(sourceDirs) && Lists(replicaDirs, live.dirs)
    ensures var r := DirectoryPasses(src, live, sourceDirs, replicaDirs, false);
      r.failure.None? ==>
        && (forall d :: CreatedDirectory(d) in r.log <==> d in src.dirs && d !in live.dirs)
        && (forall d :: DeletedDirectory(d) in r.log <==> d in live.dirs && d !in src.dirs)
        && NoDuplicates(r.log)
  {
    var r := DirectoryPasses(src, live, sourceDirs, replicaDirs, false);
    var created := CreateDirectoriesPass(src, live, sourceDirs);
    if r.failure.None? {
      var deleted := DeleteDirectoriesPass(src, created.tree, replicaDirs);
      assert r == Pass(deleted.tree, created.log + deleted.log, deleted.failure);
      CreateDirectoriesPassCreatesAll(src, live, sourceDirs);
      CreateDirectoriesPassLogsMissing(src, live, sourceDirs);
      CreateDirectoriesPassLogsOnce(src, live, sourceDirs);
      DeleteDirectoriesPassRemoves(src, created.tree, replicaDirs);
      forall d | CreatedDirectory(d) in r.log
        ensures d in src.dirs && d !in live.dirs
      {
        assert CreatedDirectory(d) in created.log;
      }
      forall d | DeletedDirectory(d) in r.log
        ensures d in live.dirs && d !in src.dirs
      {
        assert DeletedDirectory(d) in deleted.log;
        assert d in Orphans(src, replicaDirs);
      }
      forall d | d in src.dirs && d !in live.dirs
        ensures CreatedDirectory(d) in r.log
      {
        assert d in sourceDirs;
      }
      forall d | d in live.dirs && d !in src.dirs
        ensures DeletedDirectory(d) in r.log
      {
        assert d in replicaDirs && d != [];
        assert d in Orphans(src, replicaDirs);
      }
      NoDuplicatesAppend(created.log, deleted.log);
    }
  }

  /** The log of a completed cycle: its start, the file passes' entries, the directory passes' entries, its completion. */
  lemma BracketedLog(log: seq<Entry>, files: seq<Entry>, dirs: seq<Entry>)
    requires log == [Started] + files + dirs + [Completed]
    requires forall e :: e in files ==> e.Copied? || e.Deleted?
    requires forall e :: e in dirs ==> e.CreatedDirectory? || e.DeletedDirectory?
    requires NoDuplicates(files) && NoDuplicates(dirs)
    ensures forall p :: Copied(p) in log <==> Copied(p) in files
    ensures forall p :: Deleted(p) in log <==> Deleted(p) in files
    ensures forall d :: CreatedDirectory(d) in log <==> CreatedDirectory(d) in dirs
    ensures forall d :: DeletedDirectory(d) in log <==> DeletedDirectory(d) in dirs
    ensures NoDuplicates(log)
  {
    var actions := files + dirs;
    assert log == [Started] + actions + [Completed];
    forall e | e in log
      ensures e in actions <==> e != Started && e != Completed
      ensures e in actions <==> e in files || e in dirs
    {
    }
    NoDuplicatesAppend(files, dirs);
    NoDuplicatesAppend([Started], actions);
    NoDuplicatesAppend([Started] + actions, [Completed]);
  }

  /** A cycle as written that completes ran both file passes and both directory passes to completion. */
  lemma CompletedCycle(src: Tree, rep: Tree, os: Enumerator) returns (files: Pass, dirs: Pass)
    requires Valid(src) && Valid(rep) && ValidEnumerator(os)
    requires !SynchronizeFolders(src, rep, os, false).aborted
    ensures Lists(os.files(src.files.Keys), src.files.Keys) && Lists(os.files(rep.files.Keys), rep.files.Keys)
    ensures files == FilePasses(src, rep, os.files(src.files.Keys), os.files(rep.files.Keys))
    ensures files.failure.None? && Valid(files.tree)
    ensures Lists(os.dirs(src.dirs), src.dirs) && AncestorsFirst(os.dirs(src.dirs))
    ensures Lists(os.dirs(files.tree.dirs), files.tree.dirs)
    ensures dirs == DirectoryPasses(src, files.tree, os.dirs(src.dirs), os.dirs(files.tree.dirs), false)
    ensures dirs.failure.None?
    ensures SynchronizeFolders(src, rep, os, false).log == [Started] + files.log + dirs.log + [Completed]
  {
    assert Lists(os.files(src.files.Keys), src.files.Keys) && Lists(os.files(rep.files.Keys), rep.files.Keys);
    files := FilePasses(src, rep, os.files(src.files.Keys), os.files(rep.files.Keys));
    assert Lists(os.dirs(src.dirs), src.dirs) && AncestorsFirst(os.dirs(src.dirs));
    assert Lists(os.dirs(files.tree.dirs), files.tree.dirs);
    dirs := DirectoryPasses(src, files.tree, os.dirs(src.dirs), os.dirs(files.tree.dirs), false);
    assert SynchronizeDirectories(src, files.tree, os, false) == dirs;
  }

  /**
   * A cycle as written that completes logs, between its start and completion
   * entries, each of these exactly once and nothing else: "Copied/Updated"
   * for each source file the replica lacked or held with other content,
   * "Deleted" for each replica file the source lacks, "Created directory" for
   * each source directory the replica lacked that holds no file (one that
   * holds a file was already made by the copy), and "Deleted directory" for
   * each replica directory the source lacks.
   */
  lemma CycleLog(src: Tree, rep: Tree, os: Enumerator)
    requires Valid(src) && Valid(rep) && ValidEnumerator(os)
    ensures var o := SynchronizeFolders(src, rep, os, false);
      !o.aborted ==>
        && (forall p :: Copied(p) in o.log <==> p in src.files && NeedsCopy(src, rep, p))
        && (forall p :: Deleted(p) in o.log <==> p in rep.files && p !in src.files)
        && (forall d :: CreatedDirectory(d) in o.log <==> d in src.dirs && d !in rep.dirs && !HoldsFiles(src, d))
        && (forall d :: DeletedDirectory(d) in o.log <==> d in rep.dirs && d !in src.dirs)
        && NoDuplicates(o.log)
  {
    var o := SynchronizeFolders(src, rep, os, false);
    if !o.aborted {
      var files, dirs := CompletedCycle(src, rep, os);
      FilePassesLog(src, rep, os.files(src.files.Keys), os.files(rep.files.Keys));
      DirectoryPassesLog(src, files.tree, os.dirs(src.dirs), os.dirs(files.tree.dirs));
      BracketedLog(o.log, files.log, dirs.log);
      assert rep.dirs <= files.tree.dirs <= rep.dirs + src.dirs;
    }
  }
}
