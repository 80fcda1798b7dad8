/**
 * The two-stage commit of an effective configuration, to a file and then to the database, with rollback
 * (processor/config/runtime_commit_coordinator.go).
 */
module CommitCoordinator {
  import opened Wrappers

  datatype Snapshot = Snapshot(
    uuid: string, software: string, name: string, filePath: string, version: string, format: string, content: string)

  type Files = map<string, string>

  /** How a callback's write goes: a failed one may leave the file alone or leave anything behind. */
  datatype Write = Written | Untouched | Damaged(left: Option<string>)

  /** What the outside world does during one call of Commit. */
  datatype Luck = Luck(file: Write, db: bool, rollback: Write, removal: bool)

  datatype CommitResult = Committed(version: nat) | MissingArgument | FileFailed | DbFailed(rolledBack: bool)

  datatype State = State(active: Option<Snapshot>, committed: Option<Snapshot>, version: nat, files: Files)

  /** One call of Commit: its arguments, of which each may be nil, and the world's luck. */
  datatype Call = Call(next: Option<Snapshot>, hasFile: bool, hasDb: bool, luck: Luck)

  // ---------------------------------------------------------------- one call as a function

  function AfterWrite(files: Files, s: Snapshot, w: Write): Files {
    match w
    case Written => files[s.filePath := s.content]
    case Untouched => files
    case Damaged(left) => if left.Some? then files[s.filePath := left.value] else files - {s.filePath}
  }

  /** Back to the committed snapshot, or, before the first commit, to no file at all. */
  function AfterRollback(s: State, failedPath: string, luck: Luck): (Files, bool) {
    if s.committed.Some? then (AfterWrite(s.files, s.committed.value, luck.rollback), luck.rollback == Written)
    else if failedPath == "" then (s.files, true)
    else if luck.removal then (s.files - {failedPath}, true)
    else (s.files, false)
  }

  function CommitStep(s: State, c: Call): (State, CommitResult) {
    if c.next.None? || !c.hasFile || !c.hasDb then (s, MissingArgument)
    else
      var next := c.next.value;
      var written := s.(files := AfterWrite(s.files, next, c.luck.file));
      if c.luck.file != Written then (written, FileFailed)
      else if !c.luck.db then
        var (files, rolledBack) := AfterRollback(written, next.filePath, c.luck);
        (written.(active := s.committed, files := files), DbFailed(rolledBack))
      else
        (written.(active := c.next, committed := c.next, version := s.version + 1), Committed(s.version + 1))
  }

  // ---------------------------------------------------------------- the objects

  /** The files that persist callbacks write. */
  class FileStore {
    var files: Files

    constructor ()
      ensures files == map[]
    {
      files := map[];
    }

    method Persist(s: Snapshot, w: Write) returns (ok: bool)
      modifies this
      ensures files == AfterWrite(old(files), s, w) && ok == (w == Written)
    {
      match w {
        case Written => files := files[s.filePath := s.content];
        case Untouched =>
        case Damaged(left) => files := if left.Some? then files[s.filePath := left.value] else files - {s.filePath};
      }
      return w == Written;
    }

    /** Removing a file that is not there is no error. */
    method Remove(path: string, luck: bool) returns (ok: bool)
      modifies this
      ensures ok == luck && files == if luck then old(files) - {path} else old(files)
    {
      if luck {
        files := files - {path};
      }
      return luck;
    }
  }

  class EffectiveConfigCommitCoordinator {
    var active: Option<Snapshot>
    var committed: Option<Snapshot>
    var version: nat

    constructor ()
      ensures active == committed == None && version == 0
    {
      active, committed, version := None, None, 0;
    }

    function Value(store: FileStore): State
      reads this, store
    {
      State(active, committed, version, store.files)
    }

    method Commit(c: Call, store: FileStore) returns (r: CommitResult)
      modifies this, store
      ensures (Value(store), r) == CommitStep(old(Value(store)), c)
      // A call that fails before the database has seen it leaves the snapshots as they were.
      ensures !r.Committed? ==> committed == old(committed) && version == old(version)
    {
      if c.next.None? || !c.hasFile || !c.hasDb {
        return MissingArgument;
      }
      var previousActive := active;
      var nextSnapshot := c.next.value;
      active := Some(nextSnapshot);
      var ok := store.Persist(nextSnapshot, c.luck.file);
      if !ok {
        active := previousActive;
        return FileFailed;
      }
      if !c.luck.db {
        var rollbackTarget := committed;
        active := rollbackTarget;
        var rolledBack := RollbackFileToCommittedSnapshot(nextSnapshot.filePath, store, c.luck);
        return DbFailed(rolledBack);
      }
      committed := Some(nextSnapshot);
      version := version + 1;
      return Committed(version);
    }

    method RollbackFileToCommittedSnapshot(failedFilePath: string, store: FileStore, luck: Luck) returns (ok: bool)
      modifies store
      ensures (store.files, ok) == AfterRollback(old(Value(store)), failedFilePath, luck)
    {
      if committed.Some? {
        ok := store.Persist(committed.value, luck.rollback);
        return;
      }
      if failedFilePath == "" {
        return true;
      }
      ok := store.Remove(failedFilePath, luck.removal);
    }
  }

  // ---------------------------------------------------------------- runs

  const FRESH := State(None, None, 0, map[])

  function Run(s: State, calls: seq<Call>): State {
    if calls == [] then s else CommitStep(Run(s, calls[..|calls| - 1]), calls[|calls| - 1]).0
  }

  /** A call that gets through both stages. */
  predicate Succeeds(c: Call) {
    c.next.Some? && c.hasFile && c.hasDb && c.luck.file == Written && c.luck.db
  }

  function Successes(calls: seq<Call>): seq<Call> {
    if calls == [] then []
    else
      var last := calls[|calls| - 1];
      Successes(calls[..|calls| - 1]) + (if Succeeds(last) then [last] else [])
  }

  /**
   * After any calls with any failures of the callbacks, the active snapshot is the committed one, which is
   * that of the last call to succeed, and the version counts the successes.
   */
  lemma {:induction false} ActiveIsLastCommitted(calls: seq<Call>)
    ensures var s := Run(FRESH, calls);
      && s.active == s.committed
      && s.version == |Successes(calls)|
      && s.committed == (if Successes(calls) == [] then None else Successes(calls)[|Successes(calls)| - 1].next)
    decreases |calls|
  {
    if calls != [] {
      ActiveIsLastCommitted(calls[..|calls| - 1]);
    }
  }

  ghost predicate SameElsewhere(a: Files, b: Files, path: string) {
    a - {path} == b - {path}
  }

  /**
   * What a call comes to, by what went wrong: only a call that succeeds changes what is committed or the version; only
   * one with all its arguments touches a file; and one that fails at the database reports whether its rollback went
   * well, which without anything committed means that its own file is gone or had no name.
   */
  lemma OutcomeMeaning(s: State, c: Call)
    ensures var (t, r) := CommitStep(s, c);
      var complete := c.next.Some? && c.hasFile && c.hasDb;
      && (r == MissingArgument <==> !complete)
      && (r == FileFailed <==> complete && c.luck.file != Written)
      && (r.DbFailed? <==> complete && c.luck.file == Written && !c.luck.db)
      && (r.Committed? <==> Succeeds(c))
      && (r.Committed? ==>
            r.version == t.version == s.version + 1 && t.active == t.committed == c.next
            && t.files == s.files[c.next.value.filePath := c.next.value.content])
      && (!r.Committed? ==> t.committed == s.committed && t.version == s.version)
      && (r == MissingArgument ==> t == s)
      && (r == FileFailed ==> t.active == s.active && SameElsewhere(t.files, s.files, c.next.value.filePath))
      && (r == FileFailed && c.luck.file == Untouched ==> t == s)
      && (r.DbFailed? ==> t.active == s.committed)
      && (r.DbFailed? ==> (r.rolledBack <==>
            if s.committed.Some? then c.luck.rollback == Written else c.next.value.filePath == "" || c.luck.removal))
      && (r == DbFailed(true) && s.committed.None? && c.next.value.filePath != "" ==>
            t.files == s.files - {c.next.value.filePath})
  {
    if c.next.Some? {
      var path := c.next.value.filePath;
      assert s.files[path := c.next.value.content] - {path} == s.files - {path};
    }
  }

  /** The file is as the committed snapshot says. */
  predicate FileHolds(s: State, path: string) {
    match s.committed
    case None => path !in s.files
    case Some(c) => c.filePath == path && path in s.files && s.files[path] == c.content
  }

  /** The call writes to `path`, its failed writes leave the file alone, and its rollback works. */
  predicate IsGentle(c: Call, path: string) {
    && (c.next.Some? ==> c.next.value.filePath == path)
    && !c.luck.file.Damaged? && c.luck.rollback == Written && c.luck.removal
  }

  /**
   * With one path for all snapshots, failed writes that leave the file alone and rollbacks that work, the
   * file holds the committed content after every call, and does not exist before the first commit.
   */
  lemma {:induction false} FileHoldsCommitted(calls: seq<Call>, path: string)
    requires path != "" && forall i :: 0 <= i < |calls| ==> IsGentle(calls[i], path)
    ensures FileHolds(Run(FRESH, calls), path)
    decreases |calls|
  {
    if calls != [] {
      FileHoldsCommitted(calls[..|calls| - 1], path);
    }
  }

  /**
   * When the database refuses a snapshot and the rollback reports success, the refused content stays in its
   * file exactly when the committed snapshot lives elsewhere or has the same content, or when nothing was
   * committed and the path is empty.
   */
  lemma RefusedContentStaysExactlyWhen(s: State, c: Call)
    requires c.hasFile && c.hasDb && c.next.Some?
    requires CommitStep(s, c).1 == DbFailed(true)
    ensures var next := c.next.value;
      var files := CommitStep(s, c).0.files;
      (next.filePath in files && files[next.filePath] == next.content) <==>
        if s.committed.Some?
        then s.committed.value.filePath != next.filePath || s.committed.value.content == next.content
        else next.filePath == ""
  {
  }

  /** So a second path is enough for disk and memory to part: the file of the refused snapshot stays. */
  lemma RefusedFileIsLeftBehind(a: Snapshot, b: Snapshot)
    requires a.filePath != b.filePath
    ensures var good := Luck(Written, true, Written, true);
      var s := Run(FRESH, [Call(Some(a), true, true, good), Call(Some(b), true, true, good.(db := false))]);
      && s.committed == s.active == Some(a)
      && s.files == map[a.filePath := a.content, b.filePath := b.content]
  {
    var good := Luck(Written, true, Written, true);
    var first := Call(Some(a), true, true, good);
    var second := Call(Some(b), true, true, good.(db := false));
    assert [first, second][..1] == [first] && [first][..0] == [];
    assert Run(FRESH, [first]) == CommitStep(FRESH, first).0;
  }
}
