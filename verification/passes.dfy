/**
 * The four passes of a reconciliation cycle over abstract trees: file copy,
 * file delete, directory create and directory delete. Each walks a snapshot
 * taken before it starts, reads the live replica for its existence checks,
 * and stops at the first primitive that throws.
 */
module Passes {
  import opened Wrappers
  import opened Paths
  import opened FileSystem

  /** One log line, before timestamping. */
  datatype Entry =
    | Started
    | Completed
    | Copied(path: Path)
    | Deleted(path: Path)
    | CreatedDirectory(path: Path)
    | DeletedDirectory(path: Path)
    | Error(error: FsError)

  /** The text the synchronizer writes for an entry. */
  function Message(e: Entry): string {
    match e
    case Started => "Synchronization started."
    case Completed => "Synchronization completed."
    case Copied(p) => "Copied/Updated: " + Join(p)
    case Deleted(p) => "Deleted: " + Join(p)
    case CreatedDirectory(p) => "Created directory: " + Join(p)
    case DeletedDirectory(p) => "Deleted directory: " + Join(p)
    case Error(err) => "Error: " + Describe(err)
  }

  /** A readable rendering of an error (the runtime's own exception texts are not modelled). */
  function Describe(err: FsError): string {
    match err
    case DirectoryNotFound(p) => "Could not find a part of the path '" + Join(p) + "'."
    case AccessDenied(p) => "Access to the path '" + Join(p) + "' is denied."
    case FileInTheWay(p) => "The file '" + Join(p) + "' already exists."
  }

  /** Every path an entry carries is a relative path below the root. */
  predicate Named(e: Entry) {
    match e
    case Started => true
    case Completed => true
    case Error(err) => IsRelative(err.path)
    case _ => IsRelative(e.path)
  }

  /** Cutting the same text off the front of two equal strings leaves equal strings. */
  lemma CancelPrefix(a: string, x: string, y: string)
    requires a + x == a + y
    ensures x == y
  {
    assert x == (a + x)[|a|..];
    assert y == (a + y)[|a|..];
  }

  /** Cutting the same text off both ends of two equal strings leaves equal strings. */
  lemma CancelBoth(a: string, x: string, y: string, b: string)
    requires a + x + b == a + y + b
    ensures x == y
  {
    assert |x| == |y|;
    assert x == (a + x + b)[|a|..|a| + |x|];
    assert y == (a + y + b)[|a|..|a| + |y|];
  }

  /** Characters 0, 1 and 7 of an entry's line, which tell its kind. */
  function Signature(e: Entry): (char, char, char) {
    match e
    case Started => ('S', 'y', 'n')
    case Completed => ('S', 'y', 'n')
    case Copied(_) => ('C', 'o', 'U')
    case Deleted(_) => ('D', 'e', ':')
    case CreatedDirectory(_) => ('C', 'r', ' ')
    case DeletedDirectory(_) => ('D', 'e', ' ')
    case Error(DirectoryNotFound(_)) => ('E', 'r', 'C')
    case Error(AccessDenied(_)) => ('E', 'r', 'A')
    case Error(FileInTheWay(_)) => ('E', 'r', 'T')
  }

  lemma MessageSignature(e: Entry)
    requires Named(e)
    ensures |Message(e)| >= 8
    ensures (Message(e)[0], Message(e)[1], Message(e)[7]) == Signature(e)
  {
    if e.Started? || e.Completed? || e.Error? {
      OtherSignature(e);
    } else {
      ChangeSignature(e);
    }
  }

  lemma ChangeSignature(e: Entry)
    requires Named(e) && !e.Started? && !e.Completed? && !e.Error?
    ensures |Message(e)| >= 8
    ensures (Message(e)[0], Message(e)[1], Message(e)[7]) == Signature(e)
  {
    JoinStartsWithName(e.path);
  }

  lemma OtherSignature(e: Entry)
    requires e.Started? || e.Completed? || e.Error?
    ensures |Message(e)| >= 8
    ensures (Message(e)[0], Message(e)[1], Message(e)[7]) == Signature(e)
  {
    if e.Error? {
      DescribeHead(e.error);
    }
  }

  lemma DescribeHead(err: FsError)
    ensures |Describe(err)| > 1 && Describe(err)[0] == Signature(Error(err)).2
  {
  }

  /** Entries with the same signature are of the same kind. */
  lemma SameSignature(e1: Entry, e2: Entry)
    requires Signature(e1) == Signature(e2)
    ensures e1.Started? || e1.Completed? <==> e2.Started? || e2.Completed?
    ensures e1.Copied? <==> e2.Copied?
    ensures e1.Deleted? <==> e2.Deleted?
    ensures e1.CreatedDirectory? <==> e2.CreatedDirectory?
    ensures e1.DeletedDirectory? <==> e2.DeletedDirectory?
    ensures e1.Error? <==> e2.Error?
    ensures e1.Error? && e2.Error? ==>
      (e1.error.DirectoryNotFound? <==> e2.error.DirectoryNotFound?) &&
      (e1.error.AccessDenied? <==> e2.error.AccessDenied?)
  {
  }

  /**
   * Distinct entries are written as distinct lines, so the structured log
   * carries exactly what the text log does.
   */
  lemma MessageInjective(e1: Entry, e2: Entry)
    requires Named(e1) && Named(e2)
    requires Message(e1) == Message(e2)
    ensures e1 == e2
  {
    MessageSignature(e1);
    MessageSignature(e2);
    SameSignature(e1, e2);
    match e1
    case Started =>
    case Completed =>
    case Copied(p) =>
      CancelPrefix("Copied/Updated: ", Join(p), Join(e2.path));
      JoinInjective(p, e2.path);
    case Deleted(p) =>
      CancelPrefix("Deleted: ", Join(p), Join(e2.path));
      JoinInjective(p, e2.path);
    case CreatedDirectory(p) =>
      CancelPrefix("Created directory: ", Join(p), Join(e2.path));
      JoinInjective(p, e2.path);
    case DeletedDirectory(p) =>
      CancelPrefix("Deleted directory: ", Join(p), Join(e2.path));
      JoinInjective(p, e2.path);
    case Error(err) =>
      var q := e2.error.path;
      CancelPrefix("Error: ", Describe(err), Describe(e2.error));
      match err
      case DirectoryNotFound(p) =>
        CancelBoth("Could not find a part of the path '", Join(p), Join(q), "'.");
        JoinInjective(p, q);
      case AccessDenied(p) =>
        CancelBoth("Access to the path '", Join(p), Join(q), "' is denied.");
        JoinInjective(p, q);
      case FileInTheWay(p) =>
        CancelBoth("The file '", Join(p), Join(q), "' already exists.");
        JoinInjective(p, q);
  }

  // ---------------------------------------------------------------------
  // File comparison
  // ---------------------------------------------------------------------

  /** The digest `FilesAreEqual` compares; SHA-1 is taken to be collision-free. */
  function Digest(content: Bytes): Bytes {
    content
  }

  /** Files differing in length are unequal; otherwise their digests decide. */
  function FilesAreEqual(first: Bytes, second: Bytes): (r: bool)
    ensures |first| != |second| ==> !r
    ensures r <==> first == second
  {
    if |first| != |second| then false
    else Digest(first) == Digest(second)
  }

  /** The replica lacks the source file at `p`, or holds different bytes there. */
  predicate NeedsCopy(src: Tree, rep: Tree, p: Path)
    requires p in src.files
  {
    p !in rep.files || rep.files[p] != src.files[p]
  }

  /**
   * No source file sits where the replica has a directory, and no source
   * directory sits where the replica has a file: the only situations in which
   * the primitives the cycle calls can throw on well-formed trees.
   */
  predicate Compatible(src: Tree, rep: Tree) {
    src.files.Keys !! rep.dirs && src.dirs !! rep.files.Keys
  }

  // ---------------------------------------------------------------------
  // Passes
  // ---------------------------------------------------------------------

  /** The replica after a pass, the entries it logged, and the error that stopped it. */
  datatype Pass = Pass(tree: Tree, log: seq<Entry>, failure: Option<FsError>)

  /**
   * One copy: create the directory of source file `p` in the live replica
   * (with any missing ancestors), then copy the file over. A copy that
   * throws leaves the directories already created behind.
   */
  function CopyOne(src: Tree, live: Tree, p: Path): (r: Pass)
    requires Valid(src) && Valid(live) && p in src.files
    ensures Valid(r.tree)
    ensures live.dirs <= r.tree.dirs <= live.dirs + src.dirs
    ensures forall q :: q in r.tree.dirs && q !in live.dirs ==> IsProperPrefix(q, p)
    ensures r.failure.None? ==> r.tree.files == live.files[p := src.files[p]] && r.log == [Copied(p)]
    ensures r.failure.Some? ==> r.tree.files == live.files && r.log == []
    ensures Compatible(src, live) ==> r.failure.None? && Compatible(src, r.tree)
  {
    SourceParentsExist(src, p);
    match CreateDirectory(live, Parent(p))
    case Failure(e) => Pass(live, [], Some(e))
    case Success(made) =>
      assert forall q :: q in made.dirs && q !in live.dirs ==> IsProperPrefix(q, p) by {
        forall q | q in made.dirs && q !in live.dirs
          ensures IsProperPrefix(q, p)
        {
          PrefixOfParent(q, p);
        }
      }
      match CopyFile(made, p, src.files[p])
      case Failure(e) => Pass(made, [], Some(e))
      case Success(copied) =>
        assert copied.files == live.files[p := src.files[p]];
        Pass(copied, [Copied(p)], None)
  }

  /**
   * The copy pass: for each source file of the snapshot `todo`, in order,
   * copy it over when the live replica lacks it or holds different content.
   */
  function CopyPass(src: Tree, live: Tree, todo: seq<Path>): (r: Pass)
    requires Valid(src) && Valid(live)
    requires forall i :: 0 <= i < |todo| ==> todo[i] in src.files
    ensures Valid(r.tree)
    ensures live.dirs <= r.tree.dirs <= live.dirs + src.dirs
    ensures forall p :: p in r.tree.files ==> p in live.files || p in todo
    ensures forall e :: e in r.log ==> e.Copied? && e.path in todo
    ensures Compatible(src, live) ==> r.failure.None?
    ensures (forall i :: 0 <= i < |todo| ==> !NeedsCopy(src, live, todo[i])) ==> r == Pass(live, [], None)
    decreases |todo|
  {
    if |todo| == 0 then Pass(live, [], None)
    else
      var p := todo[0];
      if !FileExists(live, p) || !FilesAreEqual(src.files[p], live.files[p]) then
        var step := CopyOne(src, live, p);
        if step.failure.Some? then step
        else
          var rest := CopyPass(src, step.tree, todo[1..]);
          Pass(rest.tree, step.log + rest.log, rest.failure)
      else
        CopyPass(src, live, todo[1..])
  }

  /** A replica file outside the snapshot, or already equal to its source, keeps its content. */
  lemma {:induction false} CopyPassKeeps(src: Tree, live: Tree, todo: seq<Path>)
    requires Valid(src) && Valid(live)
    requires forall i :: 0 <= i < |todo| ==> todo[i] in src.files
    ensures var r := CopyPass(src, live, todo);
      forall p :: p in live.files && (p !in todo || !NeedsCopy(src, live, p)) ==>
        p in r.tree.files && r.tree.files[p] == live.files[p]
    decreases |todo|
  {
    if |todo| > 0 {
      var p := todo[0];
      if !FileExists(live, p) || !FilesAreEqual(src.files[p], live.files[p]) {
        var step := CopyOne(src, live, p);
        if step.failure.None? {
          CopyPassKeeps(src, step.tree, todo[1..]);
        }
      } else {
        CopyPassKeeps(src, live, todo[1..]);
      }
    }
  }

  /** A snapshot file ends up holding either its old content or the source's, never anything else. */
  lemma {:induction false} CopyPassNoTornState(src: Tree, live: Tree, todo: seq<Path>)
    requires Valid(src) && Valid(live)
    requires forall i :: 0 <= i < |todo| ==> todo[i] in src.files
    ensures var r := CopyPass(src, live, todo);
      forall p :: p in r.tree.files && p in todo ==>
        r.tree.files[p] == src.files[p] || (p in live.files && r.tree.files[p] == live.files[p])
    decreases |todo|
  {
    if |todo| > 0 {
      var p := todo[0];
      if !FileExists(live, p) || !FilesAreEqual(src.files[p], live.files[p]) {
        var step := CopyOne(src, live, p);
        if step.failure.None? {
          CopyPassNoTornState(src, step.tree, todo[1..]);
          CopyPassKeeps(src, step.tree, todo[1..]);
          assert !NeedsCopy(src, step.tree, p);
        }
      } else {
        CopyPassNoTornState(src, live, todo[1..]);
        CopyPassKeeps(src, live, todo[1..]);
      }
    }
  }

  /** When the copy pass completes, every snapshot file holds the source's bytes. */
  lemma {:induction false} CopyPassDelivers(src: Tree, live: Tree, todo: seq<Path>)
    requires Valid(src) && Valid(live)
    requires forall i :: 0 <= i < |todo| ==> todo[i] in src.files
    ensures var r := CopyPass(src, live, todo);
      r.failure.None? ==>
        forall i :: 0 <= i < |todo| ==> todo[i] in r.tree.files && r.tree.files[todo[i]] == src.files[todo[i]]
    decreases |todo|
  {
    if |todo| > 0 {
      var p := todo[0];
      var next := live;
      if !FileExists(live, p) || !FilesAreEqual(src.files[p], live.files[p]) {
        var step := CopyOne(src, live, p);
        if step.failure.Some? {
          return;
        }
        next := step.tree;
      }
      assert Valid(next) && !NeedsCopy(src, next, p);
      assert CopyPass(src, live, todo).tree == CopyPass(src, next, todo[1..]).tree;
      assert CopyPass(src, live, todo).failure == CopyPass(src, next, todo[1..]).failure;
      CopyPassDelivers(src, next, todo[1..]);
      CopyPassKeeps(src, next, todo[1..]);
      var r := CopyPass(src, next, todo[1..]);
      if r.failure.None? {
        forall i | 0 <= i < |todo|
          ensures todo[i] in r.tree.files && r.tree.files[todo[i]] == src.files[todo[i]]
        {
          if i > 0 {
            assert todo[i] == todo[1..][i - 1];
          }
        }
      }
    }
  }


  /** Only a file that needed a copy is logged as copied. */
  lemma {:induction false} CopyPassLogSound(src: Tree, live: Tree, todo: seq<Path>)
    requires Valid(src) && Valid(live)
    requires forall i :: 0 <= i < |todo| ==> todo[i] in src.files
    ensures forall e :: e in CopyPass(src, live, todo).log ==> NeedsCopy(src, live, e.path)
    decreases |todo|
  {
    if |todo| > 0 {
      var p := todo[0];
      if !FileExists(live, p) || !FilesAreEqual(src.files[p], live.files[p]) {
        var step := CopyOne(src, live, p);
        if step.failure.None? {
          CopyPassLogSound(src, step.tree, todo[1..]);
          assert forall q :: q in src.files && q != p ==>
            (NeedsCopy(src, step.tree, q) <==> NeedsCopy(src, live, q));
        }
      } else {
        CopyPassLogSound(src, live, todo[1..]);
      }
    }
  }

  /** No path is logged as copied twice. */
  lemma {:induction false} CopyPassLogOnce(src: Tree, live: Tree, todo: seq<Path>)
    requires Valid(src) && Valid(live)
    requires forall i :: 0 <= i < |todo| ==> todo[i] in src.files
    ensures NoDuplicates(CopyPass(src, live, todo).log)
    decreases |todo|
  {
    if |todo| > 0 {
      var p := todo[0];
      if !FileExists(live, p) || !FilesAreEqual(src.files[p], live.files[p]) {
        var step := CopyOne(src, live, p);
        if step.failure.None? {
          var rest := CopyPass(src, step.tree, todo[1..]);
          CopyPassLogOnce(src, step.tree, todo[1..]);
          CopyPassLogSound(src, step.tree, todo[1..]);
          assert !NeedsCopy(src, step.tree, p);
          NoDuplicatesAppend([Copied(p)], rest.log);
        }
      } else {
        CopyPassLogOnce(src, live, todo[1..]);
      }
    }
  }

  /** When the copy pass completes, every file that needed a copy is logged. */
  lemma {:induction false} CopyPassLogComplete(src: Tree, live: Tree, todo: seq<Path>)
    requires Valid(src) && Valid(live)
    requires forall i :: 0 <= i < |todo| ==> todo[i] in src.files
    ensures var r := CopyPass(src, live, todo);
      r.failure.None? ==>
        forall i :: 0 <= i < |todo| && NeedsCopy(src, live, todo[i]) ==> Copied(todo[i]) in r.log
    decreases |todo|
  {
    if |todo| > 0 {
      var p := todo[0];
      if !FileExists(live, p) || !FilesAreEqual(src.files[p], live.files[p]) {
        var step := CopyOne(src, live, p);
        if step.failure.None? {
          CopyPassLogComplete(src, step.tree, todo[1..]);
          assert forall q :: q in src.files && q != p ==>
            (NeedsCopy(src, step.tree, q) <==> NeedsCopy(src, live, q));
        }
      } else {
        CopyPassLogComplete(src, live, todo[1..]);
        assert !NeedsCopy(src, live, p);
      }
    }
  }


  /**
   * When the copy pass completes, every directory it created lies on the way
   * to a file it copied (a failed copy can leave created directories behind).
   */
  lemma {:induction false} CopyPassNewDirs(src: Tree, live: Tree, todo: seq<Path>)
    requires Valid(src) && Valid(live)
    requires forall i :: 0 <= i < |todo| ==> todo[i] in src.files
    ensures var r := CopyPass(src, live, todo);
      r.failure.None? ==>
        forall q :: q in r.tree.dirs && q !in live.dirs ==> exists e :: e in r.log && IsProperPrefix(q, e.path)
    decreases |todo|
  {
    if |todo| > 0 {
      var p := todo[0];
      if !FileExists(live, p) || !FilesAreEqual(src.files[p], live.files[p]) {
        var step := CopyOne(src, live, p);
        if step.failure.None? {
          CopyPassNewDirs(src, step.tree, todo[1..]);
          var r := CopyPass(src, live, todo);
          var rest := CopyPass(src, step.tree, todo[1..]);
          assert r.log == [Copied(p)] + rest.log && r.tree == rest.tree;
          forall q | r.failure.None? && q in r.tree.dirs && q !in live.dirs
            ensures exists e :: e in r.log && IsProperPrefix(q, e.path)
          {
            if q in step.tree.dirs {
              assert Copied(p) in r.log;
            } else {
              var e :| e in rest.log && IsProperPrefix(q, e.path);
              assert e in r.log;
            }
          }
        }
      } else {
        CopyPassNewDirs(src, live, todo[1..]);
        assert CopyPass(src, live, todo) == CopyPass(src, live, todo[1..]);
      }
    }
  }

  /** Every directory on the way to a source file is a source directory. */
  lemma SourceParentsExist(src: Tree, p: Path)
    requires Valid(src) && p in src.files
    ensures forall q :: q != [] && IsPrefix(q, Parent(p)) ==> q in src.dirs
  {
    forall q | q != [] && IsPrefix(q, Parent(p))
      ensures q in src.dirs
    {
      AncestorsExist(src, Parent(p), q);
    }
  }

  /**
   * The file delete pass: for each replica file of the snapshot `todo` taken
   * before the copy pass, delete it from the live replica when the source has
   * no file at that path.
   */
  function DeletePass(src: Tree, live: Tree, todo: seq<Path>): (r: Pass)
    requires Valid(live)
    requires forall i :: 0 <= i < |todo| ==> todo[i] != []
    ensures Valid(r.tree) && r.tree.dirs == live.dirs
    ensures forall p :: p in r.tree.files ==> p in live.files && r.tree.files[p] == live.files[p]
    ensures forall p :: p in live.files && (p in src.files || p !in todo) ==> p in r.tree.files
    ensures forall e :: e in r.log ==> e.Deleted? && e.path in todo && e.path !in src.files
    ensures (forall i :: 0 <= i < |todo| && todo[i] !in src.files ==>
               todo[i] !in live.dirs && DirExists(live, Parent(todo[i]))) ==> r.failure.None?
    ensures (forall i :: 0 <= i < |todo| ==> todo[i] in src.files) ==> r == Pass(live, [], None)
    decreases |todo|
  {
    if |todo| == 0 then Pass(live, [], None)
    else
      var p := todo[0];
      if !FileExists(src, p) then
        match DeleteFile(live, p)
        case Failure(e) => Pass(live, [], Some(e))
        case Success(smaller) =>
          var rest := DeletePass(src, smaller, todo[1..]);
          Pass(rest.tree, [Deleted(p)] + rest.log, rest.failure)
      else
        DeletePass(src, live, todo[1..])
  }

  /** When the file delete pass completes, every snapshot file the source lacks is gone and was logged. */
  lemma {:induction false} DeletePassRemovesAll(src: Tree, live: Tree, todo: seq<Path>)
    requires Valid(live)
    requires forall i :: 0 <= i < |todo| ==> todo[i] != []
    ensures var r := DeletePass(src, live, todo);
      r.failure.None? ==> forall i :: 0 <= i < |todo| && todo[i] !in src.files ==>
        todo[i] !in r.tree.files && Deleted(todo[i]) in r.log
    decreases |todo|
  {
    if |todo| > 0 {
      var p := todo[0];
      if !FileExists(src, p) {
        match DeleteFile(live, p)
        case Failure(_) =>
        case Success(smaller) =>
          DeletePassRemovesAll(src, smaller, todo[1..]);
      } else {
        DeletePassRemovesAll(src, live, todo[1..]);
      }
    }
  }

  /** On a duplicate-free snapshot, the file delete pass logs no path twice. */
  lemma {:induction false} DeletePassLogsOnce(src: Tree, live: Tree, todo: seq<Path>)
    requires Valid(live)
    requires forall i :: 0 <= i < |todo| ==> todo[i] != []
    ensures NoDuplicates(todo) ==> NoDuplicates(DeletePass(src, live, todo).log)
    decreases |todo|
  {
    if |todo| > 0 {
      var p := todo[0];
      if !FileExists(src, p) {
        match DeleteFile(live, p)
        case Failure(_) =>
        case Success(smaller) =>
          DeletePassLogsOnce(src, smaller, todo[1..]);
          assert NoDuplicates(todo) ==> p !in todo[1..] && NoDuplicates(todo[1..]);
      } else {
        DeletePassLogsOnce(src, live, todo[1..]);
        assert NoDuplicates(todo) ==> NoDuplicates(todo[1..]);
      }
    }
  }


  /**
   * The directory create pass: for each source directory of the snapshot
   * `todo`, create it in the live replica unless it already exists there.
   */
  function CreateDirectoriesPass(src: Tree, live: Tree, todo: seq<Path>): (r: Pass)
    requires Valid(src) && Valid(live)
    requires forall i :: 0 <= i < |todo| ==> todo[i] in src.dirs
    ensures Valid(r.tree) && r.tree.files == live.files
    ensures live.dirs <= r.tree.dirs <= live.dirs + src.dirs
    ensures forall e :: e in r.log ==> e.CreatedDirectory? && e.path in todo && e.path !in live.dirs
    ensures src.dirs !! live.files.Keys ==> r.failure.None?
    ensures (forall i :: 0 <= i < |todo| ==> todo[i] in live.dirs) ==> r == Pass(live, [], None)
    decreases |todo|
  {
    if |todo| == 0 then Pass(live, [], None)
    else
      var d := todo[0];
      assert forall q :: q != [] && IsPrefix(q, d) ==> q in src.dirs by {
        forall q | q != [] && IsPrefix(q, d)
          ensures q in src.dirs
        {
          AncestorsExist(src, d, q);
        }
      }
      if !DirExists(live, d) then
        match CreateDirectory(live, d)
        case Failure(e) => Pass(live, [], Some(e))
        case Success(made) =>
          var rest := CreateDirectoriesPass(src, made, todo[1..]);
          Pass(rest.tree, [CreatedDirectory(d)] + rest.log, rest.failure)
      else
        CreateDirectoriesPass(src, live, todo[1..])
  }

  /** When the directory create pass completes, every snapshot directory exists. */
  lemma {:induction false} CreateDirectoriesPassCreatesAll(src: Tree, live: Tree, todo: seq<Path>)
    requires Valid(src) && Valid(live)
    requires forall i :: 0 <= i < |todo| ==> todo[i] in src.dirs
    ensures var r := CreateDirectoriesPass(src, live, todo);
      r.failure.None? ==> forall i :: 0 <= i < |todo| ==> todo[i] in r.tree.dirs
    decreases |todo|
  {
    if |todo| > 0 {
      var d := todo[0];
      if !DirExists(live, d) {
        match CreateDirectory(live, d)
        case Failure(_) =>
        case Success(made) =>
          CreateDirectoriesPassCreatesAll(src, made, todo[1..]);
      } else {
        CreateDirectoriesPassCreatesAll(src, live, todo[1..]);
      }
    }
  }

  /**
   * With ancestors listed first, a completed directory create pass logged
   * every snapshot directory the replica lacked.
   */
  lemma {:induction false} CreateDirectoriesPassLogsMissing(src: Tree, live: Tree, todo: seq<Path>)
    requires Valid(src) && Valid(live)
    requires forall i :: 0 <= i < |todo| ==> todo[i] in src.dirs
    ensures var r := CreateDirectoriesPass(src, live, todo);
      r.failure.None? && AncestorsFirst(todo) ==>
        forall i :: 0 <= i < |todo| && todo[i] !in live.dirs ==> CreatedDirectory(todo[i]) in r.log
    decreases |todo|
  {
    if |todo| > 0 && AncestorsFirst(todo) {
      var d := todo[0];
      assert AncestorsFirst(todo[1..]);
      if !DirExists(live, d) {
        match CreateDirectory(live, d)
        case Failure(_) =>
        case Success(made) =>
          CreateDirectoriesPassLogsMissing(src, made, todo[1..]);
          forall i | 1 <= i < |todo| && todo[i] !in live.dirs && todo[i] != d
            ensures todo[i] !in made.dirs
          {
            assert !IsProperPrefix(todo[i], todo[0]);
          }
      } else {
        CreateDirectoriesPassLogsMissing(src, live, todo[1..]);
      }
    }
  }

  /** The directory create pass logs no directory twice. */
  lemma {:induction false} CreateDirectoriesPassLogsOnce(src: Tree, live: Tree, todo: seq<Path>)
    requires Valid(src) && Valid(live)
    requires forall i :: 0 <= i < |todo| ==> todo[i] in src.dirs
    ensures NoDuplicates(CreateDirectoriesPass(src, live, todo).log)
    decreases |todo|
  {
    if |todo| > 0 {
      var d := todo[0];
      if !DirExists(live, d) {
        match CreateDirectory(live, d)
        case Failure(_) =>
        case Success(made) =>
          CreateDirectoriesPassLogsOnce(src, made, todo[1..]);
      } else {
        CreateDirectoriesPassLogsOnce(src, live, todo[1..]);
      }
    }
  }


  /** The snapshot directories the source lacks: the ones the directory delete pass removes. */
  function Orphans(src: Tree, todo: seq<Path>): set<Path> {
    set i | 0 <= i < |todo| && !DirExists(src, todo[i]) :: todo[i]
  }

  /** `p` is one of `ds` or lies below one of them. */
  predicate Below(ds: set<Path>, p: Path) {
    exists d :: d in ds && IsPrefix(d, p)
  }

  lemma OrphansOfTail(src: Tree, todo: seq<Path>)
    requires |todo| > 0
    ensures Orphans(src, todo) ==
      (if DirExists(src, todo[0]) then {} else {todo[0]}) + Orphans(src, todo[1..])
  {
    var tail := Orphans(src, todo[1..]);
    forall q | q in tail
      ensures q in Orphans(src, todo)
    {
      var i :| 0 <= i < |todo[1..]| && !DirExists(src, todo[1..][i]) && todo[1..][i] == q;
      assert todo[i + 1] == q;
    }
  }

  lemma BelowOrphansOfTail(src: Tree, todo: seq<Path>, p: Path)
    requires |todo| > 0
    ensures Below(Orphans(src, todo), p) <==>
      (!DirExists(src, todo[0]) && IsPrefix(todo[0], p)) || Below(Orphans(src, todo[1..]), p)
    ensures StrictlyBelow(Orphans(src, todo), p) <==>
      (!DirExists(src, todo[0]) && IsProperPrefix(todo[0], p)) || StrictlyBelow(Orphans(src, todo[1..]), p)
  {
    OrphansOfTail(src, todo);
    if Below(Orphans(src, todo), p) {
      var e :| e in Orphans(src, todo) && IsPrefix(e, p);
    }
    if Below(Orphans(src, todo[1..]), p) {
      var e :| e in Orphans(src, todo[1..]) && IsPrefix(e, p);
      assert e in Orphans(src, todo);
    }
    if StrictlyBelow(Orphans(src, todo), p) {
      var e :| e in Orphans(src, todo) && IsProperPrefix(e, p);
    }
    if StrictlyBelow(Orphans(src, todo[1..]), p) {
      var e :| e in Orphans(src, todo[1..]) && IsProperPrefix(e, p);
      assert e in Orphans(src, todo);
    }
  }

  /**
   * The directory delete pass as the synchronizer is written: for each
   * directory of the snapshot `todo` taken before the create pass, delete it
   * recursively from the live replica when the source has no such directory.
   * A snapshot directory already removed with an ancestor makes
   * `Directory.Delete` throw, which ends the pass.
   */
  function DeleteDirectoriesPass(src: Tree, live: Tree, todo: seq<Path>): (r: Pass)
    requires Valid(live)
    ensures Valid(r.tree)
    ensures forall p :: p in r.tree.files ==> p in live.files && r.tree.files[p] == live.files[p]
    ensures r.tree.dirs <= live.dirs
    ensures forall e :: e in r.log ==> e.DeletedDirectory? && e.path in Orphans(src, todo) && e.path in live.dirs
    ensures (forall i :: 0 <= i < |todo| ==> DirExists(src, todo[i])) ==> r == Pass(live, [], None)
    decreases |todo|
  {
    if |todo| == 0 then Pass(live, [], None)
    else
      var d := todo[0];
      OrphansOfTail(src, todo);
      if !DirExists(src, d) then
        match DeleteDirectory(live, d)
        case Failure(e) => Pass(live, [], Some(e))
        case Success(pruned) =>
          var rest := DeleteDirectoriesPass(src, pruned, todo[1..]);
          Pass(rest.tree, [DeletedDirectory(d)] + rest.log, rest.failure)
      else
        DeleteDirectoriesPass(src, live, todo[1..])
  }

  /**
   * The corrected directory delete pass: a snapshot directory that no longer
   * exists (because it went with an ancestor) is skipped instead of deleted.
   */
  function FixedDeleteDirectoriesPass(src: Tree, live: Tree, todo: seq<Path>): (r: Pass)
    requires Valid(live)
    ensures r.failure.None?
    ensures Valid(r.tree)
    ensures forall p :: p in r.tree.files ==> p in live.files && r.tree.files[p] == live.files[p]
    ensures r.tree.dirs <= live.dirs
    ensures forall e :: e in r.log ==> e.DeletedDirectory? && e.path in Orphans(src, todo) && e.path in live.dirs
    ensures (forall i :: 0 <= i < |todo| ==> DirExists(src, todo[i])) ==> r == Pass(live, [], None)
    decreases |todo|
  {
    if |todo| == 0 then Pass(live, [], None)
    else
      var d := todo[0];
      OrphansOfTail(src, todo);
      if !DirExists(src, d) && DirExists(live, d) then
        var pruned := DeleteDirectory(live, d).value;
        var rest := FixedDeleteDirectoriesPass(src, pruned, todo[1..]);
        Pass(rest.tree, [DeletedDirectory(d)] + rest.log, rest.failure)
      else
        FixedDeleteDirectoriesPass(src, live, todo[1..])
  }

  /** Deleting never reaches what lies outside the snapshot's orphans. */
  lemma {:induction false} DeleteDirectoriesPassKeeps(src: Tree, live: Tree, todo: seq<Path>)
    requires Valid(live)
    ensures var r := DeleteDirectoriesPass(src, live, todo);
      && (forall p :: p in live.files && !Below(Orphans(src, todo), p) ==> p in r.tree.files)
      && (forall q :: q in live.dirs && !Below(Orphans(src, todo), q) ==> q in r.tree.dirs)
    decreases |todo|
  {
    if |todo| > 0 {
      var d := todo[0];
      OrphansOfTail(src, todo);
      if !DirExists(src, d) {
        match DeleteDirectory(live, d)
        case Failure(_) =>
        case Success(pruned) =>
          DeleteDirectoriesPassKeeps(src, pruned, todo[1..]);
      } else {
        DeleteDirectoriesPassKeeps(src, live, todo[1..]);
      }
    }
  }

  /**
   * When the directory delete pass completes, nothing remains at or below an
   * orphan, and every orphan was logged once as "Deleted directory".
   */
  lemma {:induction false} DeleteDirectoriesPassRemoves(src: Tree, live: Tree, todo: seq<Path>)
    requires Valid(live)
    ensures var r := DeleteDirectoriesPass(src, live, todo);
      && (r.failure.None? ==>
            && (forall p :: p in r.tree.files ==> !Below(Orphans(src, todo), p))
            && (forall q :: q in r.tree.dirs ==> !Below(Orphans(src, todo), q))
            && (forall d :: d in Orphans(src, todo) ==> DeletedDirectory(d) in r.log))
      && NoDuplicates(r.log)
    decreases |todo|
  {
    if |todo| > 0 {
      var d := todo[0];
      OrphansOfTail(src, todo);
      if !DirExists(src, d) {
        match DeleteDirectory(live, d)
        case Failure(_) =>
        case Success(pruned) =>
          DeleteDirectoriesPassRemoves(src, pruned, todo[1..]);
          assert d !in pruned.dirs;
      } else {
        DeleteDirectoriesPassRemoves(src, live, todo[1..]);
      }
    }
  }

  /**
   * Some orphan of the snapshot is no longer a directory of the live replica
   * when its turn comes: it was missing from the start, or an earlier orphan
   * of the snapshot lies on its path.
   */
  predicate Doomed(src: Tree, live: Tree, todo: seq<Path>) {
    exists j :: 0 <= j < |todo| && !DirExists(src, todo[j]) &&
      (todo[j] !in live.dirs ||
       exists i :: 0 <= i < j && !DirExists(src, todo[i]) && IsPrefix(todo[i], todo[j]))
  }

  /** The directory delete pass as written throws exactly when the snapshot is doomed. */
  lemma {:induction false} DeleteDirectoriesPassFails(src: Tree, live: Tree, todo: seq<Path>)
    requires Valid(live)
    ensures DeleteDirectoriesPass(src, live, todo).failure.Some? <==> Doomed(src, live, todo)
    decreases |todo|
  {
    if |todo| > 0 {
      var d := todo[0];
      if !DirExists(src, d) {
        match DeleteDirectory(live, d)
        case Failure(_) =>
          assert Doomed(src, live, todo) by {
            assert 0 < |todo| && !DirExists(src, todo[0]) && todo[0] !in live.dirs;
          }
        case Success(pruned) =>
          DeleteDirectoriesPassFails(src, pruned, todo[1..]);
          DoomedAfterDelete(src, live, pruned, todo);
      } else {
        DeleteDirectoriesPassFails(src, live, todo[1..]);
        DoomedAfterSkip(src, live, todo);
      }
    }
  }

  /** A listing headed by a directory the source has is doomed exactly when its tail is. */
  lemma DoomedAfterSkip(src: Tree, live: Tree, todo: seq<Path>)
    requires |todo| > 0 && DirExists(src, todo[0])
    ensures Doomed(src, live, todo) <==> Doomed(src, live, todo[1..])
  {
    var rest := todo[1..];
    if Doomed(src, live, rest) {
      var j :| 0 <= j < |rest| && !DirExists(src, rest[j]) &&
        (rest[j] !in live.dirs ||
         exists i :: 0 <= i < j && !DirExists(src, rest[i]) && IsPrefix(rest[i], rest[j]));
      assert todo[j + 1] == rest[j];
      if rest[j] in live.dirs {
        var i :| 0 <= i < j && !DirExists(src, rest[i]) && IsPrefix(rest[i], rest[j]);
        assert todo[i + 1] == rest[i];
      }
    }
    if Doomed(src, live, todo) {
      var j :| 0 <= j < |todo| && !DirExists(src, todo[j]) &&
        (todo[j] !in live.dirs ||
         exists i :: 0 <= i < j && !DirExists(src, todo[i]) && IsPrefix(todo[i], todo[j]));
      assert j > 0;
      assert rest[j - 1] == todo[j];
      if todo[j] in live.dirs {
        var i :| 0 <= i < j && !DirExists(src, todo[i]) && IsPrefix(todo[i], todo[j]);
        assert i > 0;
        assert rest[i - 1] == todo[i];
      }
    }
  }

  /**
   * A listing headed by an orphan that exists is doomed exactly when its tail
   * is doomed on the tree left by deleting that orphan.
   */
  lemma DoomedAfterDelete(src: Tree, live: Tree, pruned: Tree, todo: seq<Path>)
    requires |todo| > 0 && !DirExists(src, todo[0]) && todo[0] in live.dirs
    requires forall q :: q in pruned.dirs <==> q in live.dirs && !IsPrefix(todo[0], q)
    ensures Doomed(src, live, todo) <==> Doomed(src, pruned, todo[1..])
  {
    var rest := todo[1..];
    if Doomed(src, pruned, rest) {
      var j :| 0 <= j < |rest| && !DirExists(src, rest[j]) &&
        (rest[j] !in pruned.dirs ||
         exists i :: 0 <= i < j && !DirExists(src, rest[i]) && IsPrefix(rest[i], rest[j]));
      assert todo[j + 1] == rest[j];
      if rest[j] !in pruned.dirs {
        if rest[j] in live.dirs {
          assert IsPrefix(todo[0], todo[j + 1]);
        }
      } else {
        var i :| 0 <= i < j && !DirExists(src, rest[i]) && IsPrefix(rest[i], rest[j]);
        assert todo[i + 1] == rest[i];
      }
    }
    if Doomed(src, live, todo) {
      var j :| 0 <= j < |todo| && !DirExists(src, todo[j]) &&
        (todo[j] !in live.dirs ||
         exists i :: 0 <= i < j && !DirExists(src, todo[i]) && IsPrefix(todo[i], todo[j]));
      if j > 0 {
        assert rest[j - 1] == todo[j];
        if todo[j] in live.dirs {
          var i :| 0 <= i < j && !DirExists(src, todo[i]) && IsPrefix(todo[i], todo[j]);
          if i > 0 {
            assert rest[i - 1] == todo[i];
          }
        }
      }
    }
  }

  /** `p` lies strictly below one of `ds`. */
  predicate StrictlyBelow(ds: set<Path>, p: Path) {
    exists d :: d in ds && IsProperPrefix(d, p)
  }

  /** The corrected pass, too, leaves everything outside the orphans alone. */
  lemma {:induction false} FixedDeleteDirectoriesPassKeeps(src: Tree, live: Tree, todo: seq<Path>)
    requires Valid(live)
    ensures var r := FixedDeleteDirectoriesPass(src, live, todo);
      && (forall p :: p in live.files && !Below(Orphans(src, todo), p) ==> p in r.tree.files)
      && (forall q :: q in live.dirs && !Below(Orphans(src, todo), q) ==> q in r.tree.dirs)
    decreases |todo|
  {
    if |todo| > 0 {
      var d := todo[0];
      OrphansOfTail(src, todo);
      if !DirExists(src, d) && DirExists(live, d) {
        FixedDeleteDirectoriesPassKeeps(src, DeleteDirectory(live, d).value, todo[1..]);
      } else {
        FixedDeleteDirectoriesPassKeeps(src, live, todo[1..]);
      }
    }
  }

  /**
   * The corrected pass removes every directory at or below an orphan, and
   * every file there when no listed orphan is itself a replica file.
   */
  lemma {:induction false} FixedDeleteDirectoriesPassRemoves(src: Tree, live: Tree, todo: seq<Path>)
    requires Valid(live)
    ensures var r := FixedDeleteDirectoriesPass(src, live, todo);
      && (forall q :: q in r.tree.dirs ==> !Below(Orphans(src, todo), q))
      && ((forall i :: 0 <= i < |todo| && !DirExists(src, todo[i]) ==> todo[i] !in live.files) ==>
            forall p :: p in r.tree.files ==> !Below(Orphans(src, todo), p))
    decreases |todo|
  {
    if |todo| > 0 {
      var r := FixedDeleteDirectoriesPass(src, live, todo);
      var d := todo[0];
      var rest := todo[1..];
      OrphansOfTail(src, todo);
      if !DirExists(src, d) && DirExists(live, d) {
        var pruned := DeleteDirectory(live, d).value;
        var tail := FixedDeleteDirectoriesPass(src, pruned, rest);
        assert r.tree == tail.tree;
        FixedDeleteDirectoriesPassRemoves(src, pruned, rest);
        forall q | q in r.tree.dirs
          ensures !Below(Orphans(src, todo), q)
        {
          assert q in pruned.dirs && !IsPrefix(d, q);
          BelowOrphansOfTail(src, todo, q);
        }
        if forall i :: 0 <= i < |todo| && !DirExists(src, todo[i]) ==> todo[i] !in live.files {
          assert forall i :: 0 <= i < |rest| && !DirExists(src, rest[i]) ==> rest[i] !in pruned.files by {
            forall i | 0 <= i < |rest| && !DirExists(src, rest[i])
              ensures rest[i] !in pruned.files
            {
              assert rest[i] == todo[i + 1];
            }
          }
          forall p | p in r.tree.files
            ensures !Below(Orphans(src, todo), p)
          {
            assert p in pruned.files && !IsPrefix(d, p);
            BelowOrphansOfTail(src, todo, p);
          }
        }
      } else {
        var tail := FixedDeleteDirectoriesPass(src, live, rest);
        assert r == tail;
        FixedDeleteDirectoriesPassRemoves(src, live, rest);
        if !DirExists(src, d) {
          NothingBelowMissing(live, d);
          forall q | q in r.tree.dirs
            ensures !Below(Orphans(src, todo), q)
          {
            assert q in live.dirs && !IsPrefix(d, q);
            BelowOrphansOfTail(src, todo, q);
          }
          if forall i :: 0 <= i < |todo| && !DirExists(src, todo[i]) ==> todo[i] !in live.files {
            assert forall i :: 0 <= i < |rest| && !DirExists(src, rest[i]) ==> rest[i] !in live.files by {
              forall i | 0 <= i < |rest| && !DirExists(src, rest[i])
                ensures rest[i] !in live.files
              {
                assert rest[i] == todo[i + 1];
              }
            }
            forall p | p in r.tree.files
              ensures !Below(Orphans(src, todo), p)
            {
              assert p in live.files && p != d && !IsProperPrefix(d, p);
              BelowOrphansOfTail(src, todo, p);
            }
          }
        } else {
          forall q | q in r.tree.dirs
            ensures !Below(Orphans(src, todo), q)
          {
            BelowOrphansOfTail(src, todo, q);
          }
          if forall i :: 0 <= i < |todo| && !DirExists(src, todo[i]) ==> todo[i] !in live.files {
            assert forall i :: 0 <= i < |rest| && !DirExists(src, rest[i]) ==> rest[i] !in live.files by {
              forall i | 0 <= i < |rest| && !DirExists(src, rest[i])
                ensures rest[i] !in live.files
              {
                assert rest[i] == todo[i + 1];
              }
            }
            forall p | p in r.tree.files
              ensures !Below(Orphans(src, todo), p)
            {
              BelowOrphansOfTail(src, todo, p);
            }
          }
        }
      }
    }
  }

  /** The corrected pass logs each outermost live orphan once as "Deleted directory". */
  lemma {:induction false} FixedDeleteDirectoriesPassLog(src: Tree, live: Tree, todo: seq<Path>)
    requires Valid(live)
    ensures var r := FixedDeleteDirectoriesPass(src, live, todo);
      && (forall d :: d in Orphans(src, todo) && d in live.dirs && !StrictlyBelow(Orphans(src, todo), d) ==>
            DeletedDirectory(d) in r.log)
      && NoDuplicates(r.log)
    decreases |todo|
  {
    if |todo| > 0 {
      var r := FixedDeleteDirectoriesPass(src, live, todo);
      var h := todo[0];
      var rest := todo[1..];
      OrphansOfTail(src, todo);
      if !DirExists(src, h) && DirExists(live, h) {
        var pruned := DeleteDirectory(live, h).value;
        var tail := FixedDeleteDirectoriesPass(src, pruned, rest);
        assert r.log == [DeletedDirectory(h)] + tail.log;
        FixedDeleteDirectoriesPassLog(src, pruned, rest);
        assert h !in pruned.dirs;
        forall d | d in Orphans(src, todo) && d in live.dirs && !StrictlyBelow(Orphans(src, todo), d) && d != h
          ensures DeletedDirectory(d) in tail.log
        {
          assert !IsProperPrefix(h, d);
          assert d in pruned.dirs;
          assert d in Orphans(src, rest);
          assert !StrictlyBelow(Orphans(src, rest), d);
        }
      } else {
        var tail := FixedDeleteDirectoriesPass(src, live, rest);
        assert r == tail;
        FixedDeleteDirectoriesPassLog(src, live, rest);
        forall d | d in Orphans(src, todo) && d in live.dirs && !StrictlyBelow(Orphans(src, todo), d)
          ensures DeletedDirectory(d) in tail.log
        {
          assert d != h;
          assert d in Orphans(src, rest);
          assert !StrictlyBelow(Orphans(src, rest), d);
        }
      }
    }
  }
}
