/**
 * The commitment-store registry as values: what each operation does to the
 * registry's two maps, to the set of salt directories under the base path and to
 * the metadata file, given the outcome of each fallible I/O call it makes.
 * The class in module Commitments is proved to follow these functions step by step.
 */
module CommitmentsSpec {
  import opened Wrappers
  import Hex

  /** A salt: the key of a commitment. Its width plays no part here. */
  type Salt = seq<bv8>

  /** An open store, known only by an identity. */
  type Handle = nat

  datatype CommitmentStatus =
    | InProgress  // the store is open and being filled
    | Created     // the store commits to the whole plot

  /** The record that is kept in memory and written to `metadata.json`. */
  datatype Metadata = Metadata(commitments: map<Salt, CommitmentStatus>)

  /** An I/O failure; only a missing path is told apart. */
  datatype IoError = NotFound | IoFailure

  /** The two errors of `get_or_create_db`: the store did not open, or the metadata file was not written. */
  datatype DbError = RocksDbError | MetadataError(cause: IoError)

  /** What opening a store gave: a handle (its directory now exists), or a failure. */
  datatype OpenOutcome = Opened(handle: Handle) | OpenFailed

  /**
   * What writing the metadata file gave. A failed write either left the old file in
   * place or left it cut short, which no later read can parse.
   */
  datatype WriteOutcome = Written | WriteFailed(truncated: bool)

  /** The name of a salt's store directory under the base path. */
  function DirName(salt: Salt): string {
    Hex.Encode(salt)
  }

  lemma DirNameInjective(a: Salt, b: Salt)
    requires DirName(a) == DirName(b)
    ensures a == b
  {
    Hex.EncodeInjective(a, b);
  }

  /**
   * Everything an operation can change: the open handles, the in-memory record, the
   * store directories on disk, and the metadata file (None: missing or unparseable).
   */
  datatype Snapshot = Snapshot(
    databases: map<Salt, Handle>,
    metadata: Metadata,
    dirs: set<string>,
    file: Option<Metadata>)

  /** The state an operation leaves and the value it returns. */
  datatype Transition<R> = Transition(after: Snapshot, result: R)

  /**
   * The registry's invariant: every open handle has a status in the record, and the
   * directory it was opened at exists.
   */
  predicate Inv(st: Snapshot) {
    && st.databases.Keys <= st.metadata.commitments.Keys
    && forall s :: s in st.databases ==> DirName(s) in st.dirs
  }

  /** `a` and `b` agree on every key other than `key`. */
  ghost predicate AgreeExcept<V>(a: map<Salt, V>, b: map<Salt, V>, key: Salt) {
    forall s :: s != key ==> (s in a <==> s in b) && (s in a ==> a[s] == b[s])
  }

  /** Whether the metadata file lists `salt`, and with which status. */
  function Listed(file: Option<Metadata>, salt: Salt): Option<CommitmentStatus> {
    if file.Some? && salt in file.value.commitments then Some(file.value.commitments[salt]) else None
  }

  // ---------------------------------------------------------------------------
  // The I/O calls

  /** The metadata file after writing `m` to it. */
  function WriteFile(file: Option<Metadata>, m: Metadata, w: WriteOutcome): (r: Option<Metadata>)
    ensures w.Written? ==> r == Some(m)
    ensures !w.Written? ==> r == None || r == file
  {
    match w
    case Written => Some(m)
    case WriteFailed(truncated) => if truncated then None else file
  }

  function WriteResult(w: WriteOutcome): Result<(), IoError> {
    if w.Written? then Ok(()) else Err(IoFailure)
  }

  /** `remove_dir_all`: a missing directory is an error; otherwise the injected outcome decides. */
  function RemoveDirResult(dirs: set<string>, name: string, fails: bool): (r: Result<(), IoError>)
    ensures r.Ok? <==> name in dirs && !fails
  {
    if name !in dirs then Err(NotFound) else if fails then Err(IoFailure) else Ok(())
  }

  // ---------------------------------------------------------------------------
  // Startup reconciliation (`Commitments::new`)

  /** The record read at startup: a missing or unparseable file reads as the empty record. */
  function ReadMetadata(file: Option<Metadata>): (m: Metadata)
    ensures file.Some? ==> m == file.value
    ensures file.None? ==> m.commitments == map[]
  {
    file.GetOr(Metadata(map[]))
  }

  /** The salts whose status is not `Created`. */
  function StaleSalts(m: Metadata): set<Salt> {
    set s | s in m.commitments && m.commitments[s] != Created
  }

  /** The directories of a set of salts. */
  function DirsOf(salts: set<Salt>): set<string> {
    set s | s in salts :: DirName(s)
  }

  function StaleDirs(m: Metadata): set<string> {
    DirsOf(StaleSalts(m))
  }

  /** The record with its stale entries drained. */
  function FinishedOnly(m: Metadata): (r: Metadata)
    ensures forall s :: s in r.commitments <==> s in m.commitments && s !in StaleSalts(m)
    ensures forall s :: s in r.commitments ==> r.commitments[s] == Created == m.commitments[s]
  {
    Metadata(map s | s in m.commitments && m.commitments[s] == Created :: Created)
  }

  /**
   * Reconciliation succeeds exactly when every stale directory exists and its removal
   * does not fail; `failing` names the directories whose removal fails.
   */
  predicate ReconcileSucceeds(file: Option<Metadata>, dirs: set<string>, failing: set<string>) {
    var stale := StaleDirs(ReadMetadata(file));
    stale <= dirs && stale !! failing
  }

  /** The registry a successful reconciliation builds, with the disk it leaves. */
  function Reconciled(file: Option<Metadata>, dirs: set<string>): (st: Snapshot)
    ensures Inv(st) && st.databases == map[]
    ensures forall s :: s in st.metadata.commitments ==> st.metadata.commitments[s] == Created
    ensures st.dirs <= dirs && st.file == file
  {
    var m := ReadMetadata(file);
    Snapshot(map[], FinishedOnly(m), dirs - StaleDirs(m), file)
  }

  /**
   * A salt's directory survives reconciliation exactly when it existed and the salt was
   * not stale; a salt keeps its record entry exactly when it was `Created`.
   */
  lemma ReconcileKeepsExactlyFinished(file: Option<Metadata>, dirs: set<string>, salt: Salt)
    ensures var m := ReadMetadata(file);
      && (DirName(salt) in Reconciled(file, dirs).dirs <==> DirName(salt) in dirs && salt !in StaleSalts(m))
      && (salt in Reconciled(file, dirs).metadata.commitments <==>
            salt in m.commitments && m.commitments[salt] == Created)
  {
    var m := ReadMetadata(file);
    if DirName(salt) in StaleDirs(m) {
      var t :| t in StaleSalts(m) && DirName(t) == DirName(salt);
      DirNameInjective(t, salt);
    }
  }

  /** Directories that belong to no stale salt are never touched by reconciliation. */
  lemma ReconcileTouchesOnlyStaleDirs(file: Option<Metadata>, dirs: set<string>, name: string)
    requires name in dirs
    requires forall s :: s in StaleSalts(ReadMetadata(file)) ==> DirName(s) != name
    ensures name in Reconciled(file, dirs).dirs
  {
  }

  // ---------------------------------------------------------------------------
  // The three operations on a constructed registry

  /** `get_or_create_db`. */
  function GetOrCreate(st: Snapshot, salt: Salt, open: OpenOutcome, write: WriteOutcome): (r: Transition<Result<Handle, DbError>>)
    // an open handle is handed out again, and nothing else happens
    ensures salt in st.databases ==> r == Transition(st, Ok(st.databases[salt]))
    // a store that does not open changes nothing
    ensures salt !in st.databases && open.OpenFailed? ==> r == Transition(st, Err(RocksDbError))
    // a store that opens is registered and marked InProgress, whatever status it had,
    // its directory exists, and the whole record is written out
    ensures salt !in st.databases && open.Opened? ==>
      && r.after.databases == st.databases[salt := open.handle]
      && r.after.metadata.commitments == st.metadata.commitments[salt := InProgress]
      && r.after.dirs == st.dirs + {DirName(salt)}
      && r.after.file == WriteFile(st.file, r.after.metadata, write)
    // the error tells the two failures apart; a write failure still leaves the handle registered
    ensures salt !in st.databases && open.Opened? ==>
      r.result == if write.Written? then Ok(open.handle) else Err(MetadataError(IoFailure))
    // a handle handed out is the registered one, and a fresh one is durably InProgress
    ensures r.result.Ok? ==> salt in r.after.databases && r.result.value == r.after.databases[salt]
    ensures r.result.Ok? && salt !in st.databases ==>
      r.after.file == Some(r.after.metadata) && Listed(r.after.file, salt) == Some(InProgress)
    ensures AgreeExcept(r.after.databases, st.databases, salt)
    ensures AgreeExcept(r.after.metadata.commitments, st.metadata.commitments, salt)
    ensures Inv(st) ==> Inv(r.after)
  {
    if salt in st.databases then Transition(st, Ok(st.databases[salt]))
    else match open
      case OpenFailed => Transition(st, Err(RocksDbError))
      case Opened(h) =>
        var metadata := Metadata(st.metadata.commitments[salt := InProgress]);
        var after := Snapshot(st.databases[salt := h], metadata, st.dirs + {DirName(salt)},
                              WriteFile(st.file, metadata, write));
        Transition(after, if write.Written? then Ok(h) else Err(MetadataError(IoFailure)))
  }

  /** `finish_commitment_creation`: the salt need not be known. */
  function FinishCreation(st: Snapshot, salt: Salt, write: WriteOutcome): (r: Transition<Result<(), IoError>>)
    ensures salt in r.after.metadata.commitments && r.after.metadata.commitments[salt] == Created
    ensures AgreeExcept(r.after.metadata.commitments, st.metadata.commitments, salt)
    ensures r.after.databases == st.databases && r.after.dirs == st.dirs
    ensures r.result.Ok? <==> write.Written?
    ensures r.result.Ok? ==> r.after.file == Some(r.after.metadata) && Listed(r.after.file, salt) == Some(Created)
    ensures !r.result.Ok? ==> r.after.file == None || r.after.file == st.file
    ensures Inv(st) ==> Inv(r.after)
  {
    var metadata := Metadata(st.metadata.commitments[salt := Created]);
    Transition(st.(metadata := metadata, file := WriteFile(st.file, metadata, write)), WriteResult(write))
  }

  /** `remove_commitment`: the directory is deleted only when a handle was open. */
  function RemoveSalt(st: Snapshot, salt: Salt, removeFails: bool): (r: Transition<Result<(), IoError>>)
    ensures salt !in r.after.databases && salt !in r.after.metadata.commitments
    ensures AgreeExcept(r.after.databases, st.databases, salt)
    ensures AgreeExcept(r.after.metadata.commitments, st.metadata.commitments, salt)
    // the metadata file is not rewritten
    ensures r.after.file == st.file
    // with no open handle there is no I/O, and an unknown salt is a no-op
    ensures salt !in st.databases ==> r.after.dirs == st.dirs && r.result == Ok(())
    ensures salt !in st.databases && salt !in st.metadata.commitments ==> r == Transition(st, Ok(()))
    // with an open handle exactly its directory goes, unless the removal fails
    ensures salt in st.databases ==>
      && (r.result.Ok? <==> DirName(salt) in st.dirs && !removeFails)
      && r.after.dirs == if r.result.Ok? then st.dirs - {DirName(salt)} else st.dirs
  {
    var metadata := Metadata(st.metadata.commitments - {salt});
    if salt in st.databases then
      var name := DirName(salt);
      var res := RemoveDirResult(st.dirs, name, removeFails);
      Transition(Snapshot(st.databases - {salt}, metadata, if res.Ok? then st.dirs - {name} else st.dirs, st.file), res)
    else
      Transition(st.(metadata := metadata), Ok(()))
  }

  /** Removal keeps the invariant: the directories of the other open handles are not touched. */
  lemma RemovePreservesInv(st: Snapshot, salt: Salt, removeFails: bool)
    requires Inv(st)
    ensures Inv(RemoveSalt(st, salt, removeFails).after)
  {
    var after := RemoveSalt(st, salt, removeFails).after;
    forall s | s in after.databases
      ensures DirName(s) in after.dirs
    {
      if DirName(s) == DirName(salt) {
        DirNameInjective(s, salt);
      }
    }
  }

  // ---------------------------------------------------------------------------
  // Properties relating several calls

  /** Finishing twice leaves what finishing once leaves, unless the second write fails without effect. */
  lemma FinishIdempotent(st: Snapshot, salt: Salt, w1: WriteOutcome, w2: WriteOutcome)
    requires w2 != WriteFailed(false)
    ensures var once := FinishCreation(st, salt, w1);
      FinishCreation(once.after, salt, w2) == FinishCreation(st, salt, w2)
  {
    var once := FinishCreation(st, salt, w1);
    assert once.after.metadata.commitments[salt := Created] == st.metadata.commitments[salt := Created];
  }

  /** Asking twice for the same salt gives the same handle, and the second call changes nothing. */
  lemma GetOrCreateTwice(st: Snapshot, salt: Salt, open1: OpenOutcome, write1: WriteOutcome,
                         open2: OpenOutcome, write2: WriteOutcome)
    requires GetOrCreate(st, salt, open1, write1).result.Ok?
    ensures var first := GetOrCreate(st, salt, open1, write1);
      GetOrCreate(first.after, salt, open2, write2) == Transition(first.after, first.result)
  {
  }

  /**
   * After a metadata write failure the handle stays registered, so asking again
   * succeeds without writing the file: it stays as the failed write left it.
   */
  lemma RetryAfterWriteFailureSkipsWrite(st: Snapshot, salt: Salt, h: Handle, truncated: bool,
                                         open2: OpenOutcome, write2: WriteOutcome)
    requires salt !in st.databases
    ensures var first := GetOrCreate(st, salt, Opened(h), WriteFailed(truncated));
      && first.result == Err(MetadataError(IoFailure))
      && GetOrCreate(first.after, salt, open2, write2) == Transition(first.after, Ok(h))
      && first.after.file == (if truncated then None else st.file)
  {
  }

  /**
   * Removing a salt whose store is open deletes its directory, so asking again opens the
   * store in a directory that did not exist: the handle handed out is the newly opened one,
   * InProgress, in a newly created directory.
   */
  lemma RemoveOpenThenCreateIsFresh(st: Snapshot, salt: Salt, h: Handle, write: WriteOutcome)
    requires Inv(st) && salt in st.databases
    ensures var removed := RemoveSalt(st, salt, false);
      var again := GetOrCreate(removed.after, salt, Opened(h), write);
      && removed.result == Ok(())
      && salt !in removed.after.databases && DirName(salt) !in removed.after.dirs
      && again.after.databases[salt] == h
      && again.after.metadata.commitments[salt] == InProgress
      && again.after.dirs == removed.after.dirs + {DirName(salt)}
      && (write.Written? ==> again.result == Ok(h))
  {
  }

  /**
   * When no store was open, or its directory's removal failed, removal leaves the directory
   * in place, and asking again reopens that same directory with its old contents.
   */
  lemma RemoveKeepingDirReopensOld(st: Snapshot, salt: Salt, removeFails: bool, h: Handle, write: WriteOutcome)
    requires salt !in st.databases || removeFails
    requires DirName(salt) in st.dirs
    ensures var removed := RemoveSalt(st, salt, removeFails).after;
      var again := GetOrCreate(removed, salt, Opened(h), write);
      && DirName(salt) in removed.dirs
      && again.after.dirs == removed.dirs
      && again.after.metadata.commitments[salt] == InProgress
  {
  }

  /**
   * A store whose directory was created but whose salt never reached the metadata file (a
   * crash before the write, or a write that failed and left the old file) leaves an orphan:
   * a restart keeps the directory and has no record entry for it.
   */
  lemma OrphanDirSurvivesRestart(st: Snapshot, salt: Salt, h: Handle)
    requires salt !in st.databases && Listed(st.file, salt).None?
    ensures var created := GetOrCreate(st, salt, Opened(h), WriteFailed(false)).after;
      var restarted := Reconciled(created.file, created.dirs);
      && created.file == st.file && DirName(salt) in created.dirs
      && DirName(salt) in restarted.dirs
      && salt !in restarted.metadata.commitments
  {
    var created := GetOrCreate(st, salt, Opened(h), WriteFailed(false)).after;
    ReconcileKeepsExactlyFinished(created.file, created.dirs, salt);
  }

  /**
   * A missing or unparseable metadata file is not an error: reconciliation succeeds, removes
   * nothing and starts from the empty record.
   */
  lemma UnreadableMetadataIsNotAnError(dirs: set<string>, failing: set<string>)
    ensures ReconcileSucceeds(None, dirs, failing)
    ensures Reconciled(None, dirs) == Snapshot(map[], Metadata(map[]), dirs, None)
  {
    assert StaleSalts(ReadMetadata(None)) == {};
  }

  /** A finished salt keeps its record entry and its directory over a restart. */
  lemma FinishedSurvivesRestart(st: Snapshot, salt: Salt)
    ensures var finished := FinishCreation(st, salt, Written).after;
      var restarted := Reconciled(finished.file, finished.dirs);
      && salt in restarted.metadata.commitments
      && (DirName(salt) in restarted.dirs <==> DirName(salt) in st.dirs)
  {
    var finished := FinishCreation(st, salt, Written).after;
    ReconcileKeepsExactlyFinished(finished.file, finished.dirs, salt);
  }

  /** A salt the file lists as `Created` names no stale directory. */
  lemma CreatedDirNeverStale(file: Option<Metadata>, salt: Salt)
    requires Listed(file, salt) == Some(Created)
    ensures DirName(salt) !in StaleDirs(ReadMetadata(file))
  {
    var m := ReadMetadata(file);
    if DirName(salt) in StaleDirs(m) {
      var t :| t in StaleSalts(m) && DirName(t) == DirName(salt);
      DirNameInjective(t, salt);
    }
  }

  /**
   * Once finishing succeeds, any restart keeps the salt's directory, whether it succeeds
   * or stops at a failed removal: both remove only stale directories, as `Commitments.New`
   * promises, and the finished salt's is not one of them.
   */
  lemma FinishedSurvivesAnyRestart(st: Snapshot, salt: Salt, dirsAfter: set<string>)
    requires var finished := FinishCreation(st, salt, Written).after;
      dirsAfter <= finished.dirs && finished.dirs - dirsAfter <= StaleDirs(ReadMetadata(finished.file))
    ensures DirName(salt) in st.dirs ==> DirName(salt) in dirsAfter
  {
    CreatedDirNeverStale(FinishCreation(st, salt, Written).after.file, salt);
  }

  /**
   * Reopening a finished commitment after a restart marks it InProgress again on disk,
   * so a restart before the next finish deletes its directory.
   */
  lemma ReopenMakesFinishedStale(file: Option<Metadata>, dirs: set<string>, salt: Salt, h: Handle)
    requires Listed(file, salt) == Some(Created)
    ensures var st := Reconciled(file, dirs);
      var reopened := GetOrCreate(st, salt, Opened(h), Written).after;
      && salt in st.metadata.commitments
      && reopened.metadata.commitments[salt] == InProgress
      && DirName(salt) !in Reconciled(reopened.file, reopened.dirs).dirs
  {
    var st := Reconciled(file, dirs);
    ReconcileKeepsExactlyFinished(file, dirs, salt);
    var reopened := GetOrCreate(st, salt, Opened(h), Written).after;
    ReconcileKeepsExactlyFinished(reopened.file, reopened.dirs, salt);
  }

  /**
   * Reconciliation does not rewrite the metadata file, so when it dropped a stale entry
   * the next reconciliation over the same disk finds that entry's directory gone.
   */
  lemma ReconcileNotRepeatable(file: Option<Metadata>, dirs: set<string>, failing: set<string>, salt: Salt)
    requires ReconcileSucceeds(file, dirs, failing)
    requires salt in StaleSalts(ReadMetadata(file))
    ensures var st := Reconciled(file, dirs);
      st.file == file && !ReconcileSucceeds(st.file, st.dirs, {})
  {
    var m := ReadMetadata(file);
    assert DirName(salt) in StaleDirs(m);
  }

  /**
   * Removal does not rewrite the metadata file either: an InProgress entry whose store
   * was removed stays in the file, and the next reconciliation fails on its missing directory.
   */
  lemma RemoveThenRestartFails(st: Snapshot, salt: Salt, failing: set<string>)
    requires Inv(st)
    requires salt in st.databases && Listed(st.file, salt) == Some(InProgress)
    requires RemoveSalt(st, salt, false).result.Ok?
    ensures var removed := RemoveSalt(st, salt, false).after;
      removed.file == st.file && !ReconcileSucceeds(removed.file, removed.dirs, failing)
  {
    var removed := RemoveSalt(st, salt, false).after;
    assert salt in StaleSalts(ReadMetadata(removed.file));
    assert DirName(salt) in StaleDirs(ReadMetadata(removed.file));
  }

  // ---------------------------------------------------------------------------
  // Runs of operations

  datatype Op =
    | GetOrCreateDb(salt: Salt, open: OpenOutcome, write: WriteOutcome)
    | FinishCommitmentCreation(salt: Salt, write: WriteOutcome)
    | Remove(salt: Salt, removeFails: bool)

  function Step(st: Snapshot, op: Op): Snapshot {
    match op
    case GetOrCreateDb(salt, open, write) => GetOrCreate(st, salt, open, write).after
    case FinishCommitmentCreation(salt, write) => FinishCreation(st, salt, write).after
    case Remove(salt, removeFails) => RemoveSalt(st, salt, removeFails).after
  }

  /** The state after running `ops` in order, whatever each call returned. */
  function Run(st: Snapshot, ops: seq<Op>): Snapshot
    decreases |ops|
  {
    if ops == [] then st else Run(Step(st, ops[0]), ops[1..])
  }

  lemma StepPreservesInv(st: Snapshot, op: Op)
    requires Inv(st)
    ensures Inv(Step(st, op))
  {
    if op.Remove? {
      RemovePreservesInv(st, op.salt, op.removeFails);
    }
  }

  /** Every run from a state that keeps the invariant, failures included, keeps it. */
  lemma {:induction false} RunPreservesInv(st: Snapshot, ops: seq<Op>)
    requires Inv(st)
    ensures Inv(Run(st, ops))
    decreases |ops|
  {
    if ops != [] {
      StepPreservesInv(st, ops[0]);
      RunPreservesInv(Step(st, ops[0]), ops[1..]);
    }
  }

  /** The salt has no handle, no record entry, no directory and no line in the file. */
  predicate Absent(st: Snapshot, salt: Salt) {
    && salt !in st.databases
    && salt !in st.metadata.commitments
    && DirName(salt) !in st.dirs
    && Listed(st.file, salt).None?
  }

  lemma StepKeepsAbsent(st: Snapshot, op: Op, salt: Salt)
    requires Absent(st, salt) && op.salt != salt
    ensures Absent(Step(st, op), salt)
  {
    if op.GetOrCreateDb? && DirName(op.salt) == DirName(salt) {
      DirNameInjective(op.salt, salt);
    }
  }

  /** A salt no operation names never appears in any of the four places. */
  lemma {:induction false} UntouchedSaltStaysAbsent(st: Snapshot, ops: seq<Op>, salt: Salt)
    requires Absent(st, salt)
    requires forall i :: 0 <= i < |ops| ==> ops[i].salt != salt
    ensures Absent(Run(st, ops), salt)
    decreases |ops|
  {
    if ops != [] {
      StepKeepsAbsent(st, ops[0], salt);
      UntouchedSaltStaysAbsent(Step(st, ops[0]), ops[1..], salt);
    }
  }

  /** A salt absent from the file and the disk is absent from the reconciled registry. */
  lemma ReconcileKeepsAbsent(file: Option<Metadata>, dirs: set<string>, salt: Salt)
    requires Listed(file, salt).None? && DirName(salt) !in dirs
    ensures Absent(Reconciled(file, dirs), salt)
  {
  }
}
