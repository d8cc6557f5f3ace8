/**
 * One call of `SynchronizeFolders`: the file passes, then
 * `SynchronizeDirectories`, with the first error caught, logged once, and the
 * cycle bracketed by its start and completion entries.
 */
module Synchronizer {
  import opened Wrappers
  import opened Paths
  import opened FileSystem
  import opened Passes

  /** The replica a cycle leaves behind, the entries it logged, and whether an error cut it short. */
  datatype Outcome = Outcome(replica: Tree, log: seq<Entry>, aborted: bool)

  /** An entry recording one change to the replica. */
  predicate IsAction(e: Entry) {
    e.Copied? || e.Deleted? || e.CreatedDirectory? || e.DeletedDirectory?
  }

  /**
   * The two file passes over the snapshots `sourceFiles` and `replicaFiles`,
   * both taken before the copy pass; the delete pass runs only when the copy
   * pass completed.
   */
  function FilePasses(src: Tree, rep: Tree, sourceFiles: seq<Path>, replicaFiles: seq<Path>): (r: Pass)
    requires Valid(src) && Valid(rep)
    requires Lists(sourceFiles, src.files.Keys) && Lists(replicaFiles, rep.files.Keys)
    ensures Valid(r.tree)
    ensures rep.dirs <= r.tree.dirs <= rep.dirs + src.dirs
    ensures forall e :: e in r.log ==> e.Copied? || e.Deleted?
  {
    var copied := CopyPass(src, rep, sourceFiles);
    if copied.failure.Some? then copied
    else
      var deleted := DeletePass(src, copied.tree, replicaFiles);
      Pass(deleted.tree, copied.log + deleted.log, deleted.failure)
  }

  /**
   * The two directory passes over the snapshots `sourceDirs` and
   * `replicaDirs`, both taken after the file passes and before any directory
   * is created; `corrected` selects the corrected delete pass.
   */
  function DirectoryPasses(src: Tree, live: Tree, sourceDirs: seq<Path>, replicaDirs: seq<Path>, corrected: bool): (r: Pass)
    requires Valid(src) && Valid(live)
    requires Lists(sourceDirs, src.dirs) && Lists(replicaDirs, live.dirs)
    ensures Valid(r.tree)
    ensures forall p :: p in r.tree.files ==> p in live.files && r.tree.files[p] == live.files[p]
    ensures forall e :: e in r.log ==> e.CreatedDirectory? || e.DeletedDirectory?
  {
    var created := CreateDirectoriesPass(src, live, sourceDirs);
    if created.failure.Some? then created
    else
      var deleted :=
        if corrected then FixedDeleteDirectoriesPass(src, created.tree, replicaDirs)
        else DeleteDirectoriesPass(src, created.tree, replicaDirs);
      Pass(deleted.tree, created.log + deleted.log, deleted.failure)
  }

  /**
   * `SynchronizeDirectories`, listing both trees as they stand after the file
   * passes; `corrected` selects the corrected delete pass, and `false` is the
   * code as written.
   */
  function SynchronizeDirectories(src: Tree, live: Tree, os: Enumerator, corrected: bool): (r: Pass)
    requires Valid(src) && Valid(live) && ValidEnumerator(os)
    ensures Valid(r.tree)
    ensures forall p :: p in r.tree.files ==> p in live.files && r.tree.files[p] == live.files[p]
    ensures forall e :: e in r.log ==> e.CreatedDirectory? || e.DeletedDirectory?
  {
    assert Lists(os.dirs(src.dirs), src.dirs) && Lists(os.dirs(live.dirs), live.dirs);
    DirectoryPasses(src, live, os.dirs(src.dirs), os.dirs(live.dirs), corrected)
  }

  /**
   * The catch block and the final log call: an error is logged once, right
   * before the completion entry, and the replica is kept as the error left it.
   */
  function Finish(p: Pass): (o: Outcome)
    requires forall e :: e in p.log ==> IsAction(e)
    ensures o.replica == p.tree && o.aborted == p.failure.Some?
    ensures |o.log| >= 2 && o.log[0] == Started && o.log[|o.log| - 1] == Completed
    ensures forall i :: 0 < i < |o.log| - 1 ==> (o.log[i].Error? <==> o.aborted && i == |o.log| - 2)
    ensures forall i :: 0 < i < |o.log| - 1 && !o.log[i].Error? ==> IsAction(o.log[i])
    ensures o.aborted ==> o.log[|o.log| - 2] == Error(p.failure.value)
  {
    assert forall i :: 0 <= i < |p.log| ==> IsAction(p.log[i]);
    match p.failure
    case Some(e) =>
      var log := [Started] + p.log + [Error(e)] + [Completed];
      assert forall i :: 0 < i <= |p.log| ==> log[i] == p.log[i - 1];
      Outcome(p.tree, log, true)
    case None =>
      var log := [Started] + p.log + [Completed];
      assert forall i :: 0 < i <= |p.log| ==> log[i] == p.log[i - 1];
      Outcome(p.tree, log, false)
  }

  /**
   * One reconciliation cycle of the replica against the source; `corrected`
   * selects the corrected directory delete pass, and `false` is the code as
   * written.
   */
  function SynchronizeFolders(src: Tree, rep: Tree, os: Enumerator, corrected: bool): (o: Outcome)
    requires Valid(src) && Valid(rep) && ValidEnumerator(os)
    ensures Valid(o.replica)
    ensures |o.log| >= 2 && o.log[0] == Started && o.log[|o.log| - 1] == Completed
    ensures forall i :: 0 < i < |o.log| - 1 ==> (o.log[i].Error? <==> o.aborted && i == |o.log| - 2)
    ensures forall i :: 0 < i < |o.log| - 1 && !o.log[i].Error? ==> IsAction(o.log[i])
    ensures o.aborted ==> |o.log| >= 3 && o.log[|o.log| - 2].Error?
  {
    assert Lists(os.files(src.files.Keys), src.files.Keys) && Lists(os.files(rep.files.Keys), rep.files.Keys);
    var files := FilePasses(src, rep, os.files(src.files.Keys), os.files(rep.files.Keys));
    if files.failure.Some? then Finish(files)
    else
      var dirs := SynchronizeDirectories(src, files.tree, os, corrected);
      Finish(Pass(dirs.tree, files.log + dirs.log, dirs.failure))
  }
}
