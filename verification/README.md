# Folder synchronizer — a Dafny model

This project models one reconciliation cycle of `FolderSynchronizer`. The
cycle makes a replica directory tree mirror a source tree in four passes:

1. copy every source file the replica lacks or holds with different content,
   creating its directory on the way;
2. delete every replica file the source lacks;
3. create every source directory the replica lacks;
4. delete, recursively, every replica directory the source lacks.

Each change is logged. The first exception ends the cycle: it is logged as
`Error: …` and the cycle still logs its completion.

The model works over an abstract filesystem:

- **Trees.** A `Tree` is a map from relative paths to file contents plus a set
  of relative directory paths. A path is a sequence of name segments, and the
  root is the empty path.
- **Primitives.** The .NET calls the cycle makes (`Directory.CreateDirectory`,
  `File.Copy`, `File.Delete`, `Directory.Delete`) are pure functions. Each
  returns the new tree or the exception it would throw.
- **Listing order.** The order in which the operating system lists a tree is
  a parameter (`Enumerator`). A valid enumerator lists every entry exactly once
  and lists a directory after its ancestors.
- **Log.** The log is a sequence of structured entries. `Passes.Message`
  renders each entry as the line the synchronizer writes.

The modules follow the program:

- `Paths`: the string side of paths (`Substring`, `Path.Combine`) and how it
  relates to the segment paths.
- `FileSystem`: trees and the primitives.
- `Passes`: the four passes and `FilesAreEqual`.
- `Synchronizer`: `SynchronizeDirectories` and `SynchronizeFolders`.
- `Properties` and `Journal`: what a cycle achieves and what it logs.
- `Scenarios`: concrete cycles, proved for every listing order.

The directory delete pass comes in two forms. `DeleteDirectoriesPass` is the
code as written. `FixedDeleteDirectoriesPass` is the corrected form (see
Findings). `SynchronizeFolders` takes a `corrected` flag that chooses between
them; `false` is the program as written.

A source directory that holds a file is never logged as created. Take a
first cycle onto an empty replica, for a source holding `a.txt` and
`dir/b.txt`. Copying `dir/b.txt` calls `Directory.CreateDirectory` on its
parent (Program.cs line 48). So when the directory pass checks for `dir`
(line 88), it already exists, and no "Created directory: dir" line is
written. `Scenarios.FirstCycle` proves the exact log of that cycle, and
`Journal.CycleLog` states in general which directory creations are logged.

## Model

| member | source | states |
|---|---|---|
| `Paths.Substring` | Program.cs:43 | `Substring(start)` succeeds exactly when `start` lies between 0 and the string's length; the result is the suffix after `start` |
| `Paths.RelativePathOfCombine` | Program.cs:43-44 | cutting the root and one separator off an enumerated path `root/rel` gives back `rel` |
| `Paths.CombineMapsEntry` | Program.cs:43-44 | a source path's relative part, combined with the replica root, names the same entry under the replica, and mapping it back gives the same relative part |
| `Paths.CombineOfRelativePath` | Program.cs:57-58 | a full path under the root is rebuilt by combining the root with its relative path |
| `Paths.SplitJoin` | Program.cs:85-86 | splitting the string spelling of a relative path at its separators gives back its segments |
| `Paths.JoinInjective` | Program.cs:98-99 | distinct relative entries have distinct spellings, so segment-keyed trees distinguish exactly what the string paths do |
| `FileSystem.CreateDirectory` | Program.cs:48 | creating a directory succeeds exactly when no component of its path is a file; it then adds the directory and every missing ancestor and leaves files alone; otherwise it fails |
| `FileSystem.CreateExistingDirectory` | Program.cs:88-90 | creating a directory that already exists changes nothing |
| `FileSystem.CopyFile` | Program.cs:49 | an overwriting copy succeeds exactly when the target is not a directory and its parent exists; it then sets that file's content and keeps every other file |
| `FileSystem.DeleteFile` | Program.cs:62 | deleting a file succeeds exactly when the path is not a directory and its parent exists; it removes only that file, and a missing file is not an error |
| `FileSystem.DeleteDirectory` | Program.cs:103 | a recursive delete succeeds exactly when the directory exists; it removes that directory and everything below it and keeps everything else unchanged |
| `FileSystem.EnumeratorExists` | Program.cs:37-38 | the listing assumptions every cycle lemma makes can be met: listing shortest paths first lists each entry once and every directory after its ancestors |
| `Passes.MessageInjective` | Program.cs:34-104 | distinct entries, with relative paths, are written as distinct log lines ("Synchronization started.", "Copied/Updated: …", "Deleted: …", "Error: …", "Synchronization completed.", "Created directory: …", "Deleted directory: …"), so the structured log carries exactly what the text log does |
| `Passes.FilesAreEqual` | Program.cs:109-121 | files of different length are unequal; with a collision-free digest, equal exactly when their bytes are equal |
| `Passes.CopyOne` | Program.cs:48-50 | copying one source file first creates its missing ancestors, then writes the source's bytes at its path and logs one "Copied/Updated" entry; every directory it adds lies on the way to that file; on an error nothing is logged and no file changes |
| `Passes.CopyPass` | Program.cs:41-52 | the copy pass keeps the tree valid and adds only source directories; every logged path is a listed source file; it cannot throw when no source file meets a replica directory and no source directory meets a replica file; with nothing to copy it is a no-op |
| `Passes.CopyPassKeeps` | Program.cs:41-52 | a replica file outside the listing, or already equal to its source, keeps its bytes through the copy pass |
| `Passes.CopyPassNoTornState` | Program.cs:46-49 | after the copy pass a listed file holds either its old bytes or the source's, never anything else |
| `Passes.CopyPassDelivers` | Program.cs:41-52 | when the copy pass completes, every listed source file is in the replica with the source's bytes |
| `Passes.CopyPassLogSound` | Program.cs:46-50 | a file is logged as copied only if the replica lacked it or held different bytes when the pass began |
| `Passes.CopyPassLogOnce` | Program.cs:46-50 | the copy pass never logs the same path twice |
| `Passes.CopyPassLogComplete` | Program.cs:46-50 | when the copy pass completes, every listed file the replica lacked or held with different bytes was logged as copied |
| `Passes.CopyPassNewDirs` | Program.cs:48 | when the copy pass completes, every directory it created lies on the way to a file it copied |
| `Passes.DeletePass` | Program.cs:55-65 | the file delete pass removes only listed replica files the source lacks, keeps every other file unchanged, and leaves directories alone; it cannot throw when each such file still sits in an existing directory |
| `Passes.DeletePassRemovesAll` | Program.cs:55-65 | when the delete pass completes, every listed file the source lacks is gone from the replica and was logged as "Deleted" |
| `Passes.DeletePassLogsOnce` | Program.cs:60-63 | on a listing without repeats, the delete pass logs no path twice |
| `Passes.CreateDirectoriesPass` | Program.cs:83-93 | the create pass changes no file, adds only source directories, and logs only directories the replica lacked; it cannot throw when no source directory is a replica file |
| `Passes.CreateDirectoriesPassCreatesAll` | Program.cs:83-93 | when the create pass completes, every listed source directory exists in the replica |
| `Passes.CreateDirectoriesPassLogsMissing` | Program.cs:88-92 | when the create pass completes on an ancestors-first listing, every listed directory the replica lacked was logged as created |
| `Passes.CreateDirectoriesPassLogsOnce` | Program.cs:88-92 | the create pass never logs the same directory twice |
| `Passes.DeleteDirectoriesPass` | Program.cs:96-106 | the directory delete pass as written removes only entries, logs only listed directories the source lacks that the replica held, and is a no-op when the source has every listed directory |
| `Passes.DeleteDirectoriesPassKeeps` | Program.cs:101-103 | no file or directory outside the orphaned directories is removed |
| `Passes.DeleteDirectoriesPassRemoves` | Program.cs:96-106 | when the pass completes, nothing remains at or below an orphaned directory, and each orphan was logged as deleted exactly once |
| `Passes.DeleteDirectoriesPassFails` | Program.cs:96-106 | the pass as written throws exactly when an orphan is missing when its turn comes: it was already absent, or an earlier orphan in the listing is its ancestor |
| `Passes.FixedDeleteDirectoriesPass` | Program.cs:96-106 | the corrected pass never throws; it removes only entries and logs only orphans the replica held |
| `Passes.FixedDeleteDirectoriesPassKeeps` | Program.cs:101-103 | the corrected pass removes nothing outside the orphaned directories |
| `Passes.FixedDeleteDirectoriesPassRemoves` | Program.cs:96-106 | after the corrected pass no directory remains at or below an orphan, nor any file when no listed orphan is a replica file |
| `Passes.FixedDeleteDirectoriesPassLog` | Program.cs:103-104 | the corrected pass logs every outermost orphan the replica held, and logs nothing twice |
| `Synchronizer.FilePasses` | Program.cs:37-65 | the file passes keep the tree valid, add only source directories, and log only copies and deletions |
| `Synchronizer.DirectoryPasses` | Program.cs:79-106 | the directory passes keep the tree valid, keep or remove files without changing their bytes, and log only directory creations and deletions |
| `Synchronizer.SynchronizeDirectories` | Program.cs:77-107 | `SynchronizeDirectories` lists both trees as they stand after the file passes, with the same guarantees |
| `Synchronizer.Finish` | Program.cs:70-74 | the log runs from "started" to "completed"; an error appears exactly when the cycle aborted, once, just before "completed"; everything else is a change |
| `Synchronizer.SynchronizeFolders` | Program.cs:32-75 | a cycle leaves a valid replica and a log running from "started" to "completed"; an error entry appears only in an aborted cycle, and an aborted cycle always logs its error just before "completed"; every other entry is a change |
| `Properties.FilePassesConverge` | Program.cs:41-65 | when both file passes complete, the replica's files equal the source's, paths and bytes |
| `Properties.FilePassesFileSet` | Program.cs:55-65 | when both file passes complete, the replica's file paths are exactly the source's |
| `Properties.FilePassesFileContents` | Program.cs:41-52 | when both file passes complete, every source file is present in the replica with the source's bytes |
| `Properties.FilePassesSucceed` | Program.cs:41-65 | the file passes cannot throw unless a source file meets a replica directory or a source directory meets a replica file |
| `Properties.OrphansAreOutsideSource` | Program.cs:101 | a listed replica directory the source lacks has no source directory at or below it |
| `Properties.DeletePassOutcome` | Program.cs:96-106 | both forms of the directory delete pass keep everything outside the orphans, and once complete leave nothing at or below one |
| `Properties.DirectoryPassesConverge` | Program.cs:79-106 | when the directory passes complete on a replica whose files match the source, the replica equals the source |
| `Properties.DirectoryPassesDirs` | Program.cs:83-106 | when the directory passes complete, the replica's directories are exactly the source's |
| `Properties.DirectoryPassesFiles` | Program.cs:96-106 | when the directory passes complete on a replica whose files match the source, they still match it: no source directory holds a file the pass removes |
| `Properties.Convergence` | Program.cs:32-75 | a cycle that completes leaves the replica equal to the source, for every listing order |
| `Properties.QuietWhenConverged` | Program.cs:32-107 | a cycle on a replica equal to its source changes nothing and logs only "started" and "completed" |
| `Properties.Idempotence` | Program.cs:25-29 | after a completed cycle, the next cycle, in any listing order, changes nothing and logs only its bracket |
| `Properties.DoomedIffNested` | Program.cs:96-106 | on an ancestors-first listing of existing replica directories, the pass as written meets a missing directory exactly when a directory the source lacks has another listed directory below it |
| `Properties.NestedOrphansIgnoreSourceDirs` | Program.cs:48 | directories created on the way to source files add no nested orphan and remove none |
| `Properties.AbortsIffNestedOrphans` | Program.cs:68-72 | without a file/directory clash, the cycle as written aborts exactly when the replica holds a directory the source lacks with another directory below it |
| `Properties.CorrectedCycleConverges` | Program.cs:32-107 | without a file/directory clash, the corrected cycle always completes and leaves the replica equal to the source |
| `Journal.FilePassesLog` | Program.cs:41-65 | completed file passes log exactly the needed copies and deletions, each once; the directories they create are exactly the missing ones on the way to source files |
| `Journal.DirectoryPassesLog` | Program.cs:83-106 | completed directory passes as written log exactly the missing source directories as created and the orphans as deleted, each once |
| `Journal.CycleLog` | Program.cs:32-107 | a completed cycle as written logs, each once: every copy needed, every deletion needed, every missing source directory that holds no file (one that does was made by the copy), and every replica directory the source lacks |
| `Scenarios.FirstCycleCompletes` | Program.cs:32-75 | the first example cycle, onto an empty replica, completes and leaves the replica equal to the source |
| `Scenarios.FirstCycleCopies` | Program.cs:46-50 | the first cycle logs a copy of `a.txt` and of `dir/b.txt`, and of no other path |
| `Scenarios.FirstCycleOnlyCopies` | Program.cs:83-106 | the first cycle logs no deletion and no directory creation, and nothing twice |
| `Scenarios.FirstCycle` | Program.cs:46-50 | copying `a.txt` and `dir/b.txt` onto an empty replica completes, logs exactly two copies, and does not log `dir` as created |
| `Scenarios.SecondCycleCompletes` | Program.cs:32-75 | the second example cycle completes and leaves the replica equal to the new source |
| `Scenarios.SecondCycleCopies` | Program.cs:46-50 | the second cycle copies only `c.txt`, since `dir/b.txt` already holds the source's bytes |
| `Scenarios.SecondCycleDeletes` | Program.cs:55-65 | the second cycle deletes only `a.txt` |
| `Scenarios.SecondCycleKeepsDirectories` | Program.cs:83-106 | the second cycle creates and deletes no directory, and logs nothing twice |
| `Scenarios.SecondCycle` | Program.cs:55-65 | after `a.txt` leaves the source and `c.txt` joins it, the cycle logs exactly the copy of `c.txt` and the deletion of `a.txt`, leaving `dir/b.txt` alone |
| `Scenarios.NestedOrphansAbort` | Program.cs:103 | on an empty source and a replica holding `a` and `a/b`, the cycle as written deletes `a`, then throws when deleting `a/b`, and logs the error |
| `Scenarios.AbortLeavesLaterOrphans` | Program.cs:96-106 | listed `a, y, a/b, y/z` against a source holding only `y`, the pass as written deletes `a`, throws on `a/b`, and leaves the orphan `y/z` in place |
| `Scenarios.NestedOrphansCorrected` | Program.cs:101-104 | on the same trees the corrected cycle deletes `a`, skips `a/b`, and completes |

## Left out

- The endless loop and `Thread.Sleep` in `Start` (Program.cs:23-30) are left out. The model takes one cycle at a time; `Properties.Idempotence` relates two consecutive cycles.
- `Log` (Program.cs:124-129) is left out: timestamps, console output and appending to the log file are I/O. The model logs structured entries, and `Passes.Message` gives their text.
- `Main` (Program.cs:131-146), argument parsing and the constructor are left out. The two roots are fixed, and trees are keyed relative to them.
- `Passes.FilesAreEqual`: SHA-1 is modelled as a collision-free digest, so two files count as equal exactly when their bytes are. A real SHA-1 collision between same-length files would skip a needed copy.
- `Passes.Describe`: the runtime's exception message texts are not modelled. Only the error kind and path are kept.
- Only the three errors a well-formed tree can raise are modelled: directory not found, a file call on a directory, and a file in the way of a directory. Permissions, locked or read-only files, I/O faults and links are not.
- A missing source or replica root is not modelled. The first enumeration would throw and the error would be logged.
- Concurrent changes to either tree by other processes during a cycle are not modelled. Between the primitives the cycle makes, only those primitives change the replica, and the source does not change.
- The two roots are assumed disjoint: source and replica are separate trees. If one root lies inside the other, the cycle's own writes would change the source, or its listings.
- The `"*.*"` search pattern is taken to match every entry, which is .NET Core's behaviour. File listings come in any order; directory listings are assumed to list a directory after its ancestors, as the recursive enumeration does.
- Paths use `/` as the separator, and roots have no trailing separator (`Paths.IsRoot`). Case-insensitive filesystems and path normalisation are not modelled.
- The passes run on segment paths. The string handling (`Substring`, `Path.Combine`) is proved separately in `Paths` and is not recomputed inside the cycle.
- `Journal.CycleLog` describes the cycle as written. In the corrected cycle, a directory below another deleted directory is not logged.

## Findings

| source | as written | input that shows it | evidently intended | confidence | as-written member | corrected member |
|---|---|---|---|---|---|---|
| Program.cs:96-106 | the directory delete loop walks a listing taken before any deletion and calls `Directory.Delete(dir, true)` on every listed directory the source lacks, including one already removed with its parent earlier in the same loop; that call throws, the remaining directories are not examined, and the cycle logs an error | empty source; replica holding directory `a` with directory `a/b` inside it | a listed directory that no longer exists is skipped, so the cycle completes without an error | high (not executed) | `Scenarios.NestedOrphansAbort` | `Properties.CorrectedCycleConverges` |

Provided no source file meets a replica directory and no source directory
meets a replica file, the cycle as written aborts exactly when the replica
holds such nested directories (`Properties.AbortsIffNestedOrphans`).
`Passes.DeleteDirectoriesPassFails` states the pass-level condition. On the
input in the table, the aborted cycle happens to leave the replica equal to
the source. In general it does not: orphans listed after the failing one are
never reached. For a source holding only `y` and a replica holding `a`,
`a/b`, `y` and `y/z`, listed `a, y, a/b, y/z`, the pass stops before `y/z`
(`Scenarios.AbortLeavesLaterOrphans`). The corrected pass, `Passes.FixedDeleteDirectoriesPass`,
skips a directory that no longer exists. Convergence, idempotence and the
quiet-when-converged property are proved for both forms.
