/**
 * The registry as the Rust code keeps it: an object whose two maps are updated in
 * place, each update followed by an I/O call on the base directory. Every method is
 * proved to move the registry and the directory exactly as the matching function in
 * CommitmentsSpec says, and to keep the registry's invariant.
 */
module Commitments {
  import opened Wrappers
  import opened CommitmentsSpec

  /**
   * The base directory: the store directories under it, by name, and the record
   * `metadata.json` holds (None when it is missing or does not parse). Each method is
   * one I/O call; its outcome is a parameter.
   */
  class Directory {
    var subdirs: set<string>
    var metadataJson: Option<Metadata>

    constructor (subdirs: set<string>, metadataJson: Option<Metadata>)
      ensures this.subdirs == subdirs && this.metadataJson == metadataJson
    {
      this.subdirs := subdirs;
      this.metadataJson := metadataJson;
    }

    /** Overwrite `metadata.json` with the serialized record. */
    method WriteMetadata(m: Metadata, outcome: WriteOutcome) returns (r: Result<(), IoError>)
      modifies this
      ensures r == WriteResult(outcome)
      ensures metadataJson == WriteFile(old(metadataJson), m, outcome)
      ensures subdirs == old(subdirs)
    {
      metadataJson := WriteFile(metadataJson, m, outcome);
      r := WriteResult(outcome);
    }

    /** Remove a directory and everything in it. */
    method RemoveDirAll(name: string, fails: bool) returns (r: Result<(), IoError>)
      modifies this
      ensures r == RemoveDirResult(old(subdirs), name, fails)
      ensures subdirs == if r.Ok? then old(subdirs) - {name} else old(subdirs)
      ensures metadataJson == old(metadataJson)
    {
      r := RemoveDirResult(subdirs, name, fails);
      if r.Ok? {
        subdirs := subdirs - {name};
      }
    }

    /** Open the store in a directory, creating the directory when it is missing. */
    method OpenStore(name: string, outcome: OpenOutcome) returns (r: Option<Handle>)
      modifies this
      ensures r == if outcome.Opened? then Some(outcome.handle) else None
      ensures subdirs == if outcome.Opened? then old(subdirs) + {name} else old(subdirs)
      ensures metadataJson == old(metadataJson)
    {
      match outcome
      case Opened(h) =>
        subdirs := subdirs + {name};
        r := Some(h);
      case OpenFailed =>
        r := None;
    }
  }

  class Commitments {
    const dir: Directory
    var databases: map<Salt, Handle>
    var metadata: Metadata

    ghost function State(): Snapshot
      reads this, dir
    {
      Snapshot(databases, metadata, dir.subdirs, dir.metadataJson)
    }

    ghost predicate Valid()
      reads this, dir
    {
      Inv(State())
    }

    /** The registry built once reconciliation is done: no handle is open yet. */
    constructor Init(dir: Directory, metadata: Metadata)
      ensures this.dir == dir && databases == map[] && this.metadata == metadata
      ensures Valid()
    {
      this.dir := dir;
      databases := map[];
      this.metadata := metadata;
    }

    /**
     * Read the record (an unreadable file reads as empty), then drain every entry that
     * is not `Created`, removing its directory; the first failed removal ends the
     * construction. `failing` names the directories whose removal fails.
     */
    static method New(dir: Directory, failing: set<string>) returns (r: Result<Commitments, IoError>)
      modifies dir
      ensures r.Ok? <==> ReconcileSucceeds(old(dir.metadataJson), old(dir.subdirs), failing)
      ensures r.Ok? ==>
        && fresh(r.value) && r.value.dir == dir && r.value.Valid()
        && r.value.State() == Reconciled(old(dir.metadataJson), old(dir.subdirs))
      ensures r.Err? ==>
        && dir.subdirs <= old(dir.subdirs)
        && old(dir.subdirs) - dir.subdirs <= StaleDirs(ReadMetadata(old(dir.metadataJson)))
      ensures dir.metadataJson == old(dir.metadataJson)
    {
      var metadata := ReadMetadata(dir.metadataJson);
      ghost var dirs0 := dir.subdirs;
      var commitments := metadata.commitments;
      var pending := StaleSalts(metadata);
      ghost var drained: set<Salt> := {};
      while pending != {}
        invariant drained !! pending && drained + pending == StaleSalts(metadata)
        invariant commitments == metadata.commitments - drained
        invariant dir.subdirs == dirs0 - DirsOf(drained)
        invariant DirsOf(drained) <= dirs0 && DirsOf(drained) !! failing
        invariant dir.metadataJson == old(dir.metadataJson)
        decreases pending
      {
        var salt :| salt in pending;
        pending := pending - {salt};
        commitments := commitments - {salt};
        var removed := dir.RemoveDirAll(DirName(salt), DirName(salt) in failing);
        if removed.Err? {
          DrainStopped(metadata, dirs0, failing, drained, salt);
          return Err(removed.error);
        }
        DirsOfAdd(drained, salt);
        drained := drained + {salt};
      }
      DrainComplete(metadata);
      var registry := new Commitments.Init(dir, Metadata(commitments));
      r := Ok(registry);
    }

    /**
     * Hand out the open store of `salt`, or open it, register it as InProgress and
     * write the whole record out.
     */
    method GetOrCreateDb(salt: Salt, open: OpenOutcome, write: WriteOutcome) returns (r: Result<Handle, DbError>)
      requires Valid()
      modifies this, dir
      ensures Valid()
      ensures Transition(State(), r) == GetOrCreate(old(State()), salt, open, write)
    {
      if salt in databases {
        return Ok(databases[salt]);
      }
      var db := dir.OpenStore(DirName(salt), open);
      if db.None? {
        return Err(RocksDbError);
      }
      databases := databases[salt := db.value];
      metadata := Metadata(metadata.commitments[salt := InProgress]);
      var written := dir.WriteMetadata(metadata, write);
      if written.Err? {
        return Err(MetadataError(written.error));
      }
      return Ok(db.value);
    }

    /** Mark `salt` as Created and write the whole record out. */
    method FinishCommitmentCreation(salt: Salt, write: WriteOutcome) returns (r: Result<(), IoError>)
      requires Valid()
      modifies this, dir
      ensures Valid()
      ensures Transition(State(), r) == FinishCreation(old(State()), salt, write)
    {
      metadata := Metadata(metadata.commitments[salt := Created]);
      r := dir.WriteMetadata(metadata, write);
    }

    /**
     * Forget `salt`; when a store was open for it, drop the registry's handle and then
     * remove the store's directory.
     */
    method RemoveCommitment(salt: Salt, removeFails: bool) returns (r: Result<(), IoError>)
      requires Valid()
      modifies this, dir
      ensures Valid()
      ensures Transition(State(), r) == RemoveSalt(old(State()), salt, removeFails)
    {
      ghost var st := State();
      RemovePreservesInv(st, salt, removeFails);
      metadata := Metadata(metadata.commitments - {salt});
      if salt in databases {
        databases := databases - {salt};
        r := dir.RemoveDirAll(DirName(salt), removeFails);
      } else {
        r := Ok(());
      }
    }
  }

  lemma DirsOfAdd(salts: set<Salt>, salt: Salt)
    ensures DirsOf(salts + {salt}) == DirsOf(salts) + {DirName(salt)}
  {
  }

  /** A directory that drained salts other than `salt` removed is not `salt`'s. */
  lemma OnlyThisSaltNamesItsDir(others: set<Salt>, salt: Salt)
    requires salt !in others
    ensures DirName(salt) !in DirsOf(others)
  {
    if DirName(salt) in DirsOf(others) {
      var t :| t in others && DirName(t) == DirName(salt);
      DirNameInjective(t, salt);
    }
  }

  /**
   * When the removal of a stale salt's directory fails, either that directory was never
   * there or its removal was one of the failing ones: reconciliation cannot succeed.
   */
  lemma DrainStopped(m: Metadata, dirs0: set<string>, failing: set<string>, drained: set<Salt>, salt: Salt)
    requires salt in StaleSalts(m) && salt !in drained
    requires DirName(salt) !in dirs0 - DirsOf(drained) || DirName(salt) in failing
    ensures !(StaleDirs(m) <= dirs0 && StaleDirs(m) !! failing)
  {
    OnlyThisSaltNamesItsDir(drained, salt);
    assert DirName(salt) in StaleDirs(m);
  }

  /** Draining every stale salt leaves exactly the Created entries. */
  lemma DrainComplete(m: Metadata)
    ensures m.commitments - StaleSalts(m) == FinishedOnly(m).commitments
  {
  }

  /**
   * The startup example: the record {A: Created, B: InProgress} with both directories
   * on disk reconciles to {A: Created}, with A's directory kept and B's removed.
   */
  method ReconcileExample() returns (record: map<Salt, CommitmentStatus>, remaining: set<string>)
    ensures record == map[[1] := Created]
    ensures remaining == {DirName([1])}
  {
    var a, b := [1 as bv8], [2 as bv8];
    assert DirName(a) != DirName(b) by {
      if DirName(a) == DirName(b) {
        DirNameInjective(a, b);
      }
    }
    var dir := new Directory({DirName(a), DirName(b)}, Some(Metadata(map[a := Created, b := InProgress])));
    var ms := Metadata(map[a := Created, b := InProgress]);
    assert StaleSalts(ms) == {b};
    assert StaleDirs(ms) == {DirName(b)};
    var built := Commitments.New(dir, {});
    match built
    case Ok(registry) =>
      assert registry.metadata.commitments == map[a := Created];
      record, remaining := registry.metadata.commitments, dir.subdirs;
    case Err(_) =>
      assert false;
      record, remaining := map[], {};
  }
}
