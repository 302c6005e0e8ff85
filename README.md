# Commitment-store registry

A Dafny model of the registry that spartan-farmer's plotter uses to manage its
per-salt commitment stores (`Commitments` in `src/plot/commitments.rs`). The registry
keeps two maps. One maps a salt to the open RocksDB store for it. The other, the
metadata record, maps a salt to its status, `InProgress` or `Created`. The record is
written in full to `metadata.json` after each status change.

The registry has four operations:

- `new` reconciles at startup. It reads the record and treats a missing or unparseable
  file as empty. It then drains every entry that is not `Created`, removing that salt's
  store directory.
- `get_or_create_db` returns the open store. Failing that, it opens one, records
  `InProgress` and writes the record out.
- `finish_commitment_creation` records `Created` and writes the record out.
- `remove_commitment` forgets the salt. It deletes the store directory only when a
  store was open.

The model has four files:

- `Wrappers.dfy`: `Option` and `Result`.
- `Hex.dfy`: the lower-case hex text that names a salt's directory. It comes with a
  decoder and the round trip, from which it follows that different salts have different
  directories.
- `CommitmentsSpec.dfy`: the registry as values.
  - A `Snapshot` holds the four things an operation can change: the open handles, the
    in-memory record, the set of store directories under the base path, and the
    contents of `metadata.json` (`None` when it is missing or does not parse).
  - There is one function per operation. Each one's outcome parameters stand for the
    success or failure of the I/O calls it makes.
  - `Inv` is the registry invariant: every open handle has a record entry, and its
    directory exists.
  - The lemmas relate several calls, including calls across a restart.
- `Commitments.dfy`: the registry as the Rust code keeps it.
  - `Directory` is the base directory. Its methods are the I/O calls: write
    `metadata.json`, `remove_dir_all`, open a store.
  - `Commitments` is a class with the `databases` and `metadata` fields. Its methods
    update those fields in place and then make the I/O call.
  - `New` runs the draining loop over the record.
  - Each method is proved to leave exactly the state the matching function in
    `CommitmentsSpec` gives, and to keep `Inv`.

Where the code and the design description of this component differ, the model follows
the code:

- When no store is open, `get_or_create_db` overwrites any status with `InProgress`,
  including `Created` (lines 77-80). The design description says a `Created` status
  survives reopening.
- After a metadata write failure, the handle stays registered. A second call therefore
  returns it without writing the file again (lines 67-68). The design description says
  a retry re-attempts the write.
- `finish_commitment_creation` records `Created` for any salt, including one that has no
  directory. So "every `Created` salt has a directory" is not an invariant of the code,
  and `Inv` does not claim it.
- Reconciliation removes only the directories of salts the file lists as not `Created`.
  A directory whose salt the file does not list is kept. The design description says
  reconciliation leaves no incomplete directory behind after a crash. A crash between
  the store open (line 72) and the metadata write (line 81) leaves such an orphan. So
  does a write that fails and leaves the old file (`OrphanDirSurvivesRestart`).
- `remove_commitment` deletes the directory only when a store is open (lines 109-116).
  With no open store, as for every salt right after a restart, the directory stays.
  A later `get_or_create_db` reopens it with its old contents
  (`RemoveKeepingDirReopensOld`). The design description says a removal followed by a
  new request gives a brand-new store. That holds only when a store was open and its
  directory's removal succeeded (`RemoveOpenThenCreateIsFresh`).

`remove_dir_all` of a directory that does not exist fails with "not found", as the
standard library's does. Neither reconciliation nor `remove_commitment` rewrites
`metadata.json`. Two consequences are proved:

- A second restart over a file that still lists a drained `InProgress` entry fails
  (`ReconcileNotRepeatable`).
- Removing an open `InProgress` commitment makes the next restart fail
  (`RemoveThenRestartFails`).

## Model

| member | source | states |
|---|---|---|
| `Hex.Encode` | src/plot/commitments.rs:70 | a salt's directory name has two lower-case hex digits per byte |
| `Hex.DecodeEncode` | src/plot/commitments.rs:52 | decoding a salt's directory name gives the salt back |
| `Hex.EncodeInjective` | src/plot/commitments.rs:70 | different salts give different directory names |
| `CommitmentsSpec.DirNameInjective` | src/plot/commitments.rs:70 | the store directory of a salt belongs to no other salt |
| `CommitmentsSpec.ReadMetadata` | src/plot/commitments.rs:41-45 | a readable file gives its record; a missing or unparseable file gives the empty record, not an error |
| `CommitmentsSpec.WriteFile` | src/plot/commitments.rs:81-86 | a successful write leaves exactly the in-memory record in the file; a failed one leaves the old file or an unparseable one |
| `CommitmentsSpec.RemoveDirResult` | src/plot/commitments.rs:52 | removing a directory succeeds exactly when it exists and the removal does not fail |
| `CommitmentsSpec.FinishedOnly` | src/plot/commitments.rs:48-50 | draining keeps exactly the `Created` entries, with their status |
| `CommitmentsSpec.Reconciled` | src/plot/commitments.rs:47-59 | after reconciliation no handle is open, every entry is `Created`, the invariant holds, no directory was created and the file is untouched |
| `CommitmentsSpec.ReconcileKeepsExactlyFinished` | src/plot/commitments.rs:47-53 | a salt's directory survives reconciliation exactly when it existed and the salt was not stale; its entry survives exactly when it was `Created` |
| `CommitmentsSpec.ReconcileTouchesOnlyStaleDirs` | src/plot/commitments.rs:48-53 | a directory that belongs to no stale salt is kept |
| `CommitmentsSpec.ReconcileKeepsAbsent` | src/plot/commitments.rs:47-59 | a salt with no file entry and no directory is absent from the reconciled registry |
| `CommitmentsSpec.GetOrCreate` | src/plot/commitments.rs:63-91 | an open handle is returned unchanged with no I/O; a failed open changes nothing and is a RocksDB error; a successful open registers the handle, sets `InProgress` over any status, creates the directory and writes the whole record; a write failure is a metadata error but keeps both in-memory updates; other salts are untouched; the invariant is kept |
| `CommitmentsSpec.FinishCreation` | src/plot/commitments.rs:95-104 | the salt becomes `Created`, known or not; other entries, the handles and the disk are untouched; success exactly when the write succeeds, and then the file holds the whole record; the invariant is kept |
| `CommitmentsSpec.RemoveSalt` | src/plot/commitments.rs:107-119 | the salt leaves both maps and nothing else does; the file is not rewritten; with no open handle there is no I/O, and an unknown salt is a no-op success; with an open handle exactly its directory is removed, unless the removal fails |
| `CommitmentsSpec.RemovePreservesInv` | src/plot/commitments.rs:108-116 | removing a salt keeps the invariant, even when the directory removal fails |
| `CommitmentsSpec.FinishIdempotent` | src/plot/commitments.rs:95-104 | finishing twice gives the same state and result as finishing once |
| `CommitmentsSpec.GetOrCreateTwice` | src/plot/commitments.rs:67-68 | a second request for a salt that got a handle returns the same handle and changes nothing |
| `CommitmentsSpec.RetryAfterWriteFailureSkipsWrite` | src/plot/commitments.rs:67-88 | after a metadata write failure, asking again returns the handle without rewriting the file |
| `CommitmentsSpec.RemoveOpenThenCreateIsFresh` | src/plot/commitments.rs:107-118 | removing a salt whose store is open deletes its directory, so asking again creates the directory anew and hands out the newly opened handle as `InProgress` |
| `CommitmentsSpec.RemoveKeepingDirReopensOld` | src/plot/commitments.rs:107-118 | with no open store, or a failed removal, the directory stays, and asking again reopens it without creating a directory |
| `CommitmentsSpec.OrphanDirSurvivesRestart` | src/plot/commitments.rs:70-86 | a store opened for a salt the file does not list, whose metadata write did not replace the file, leaves a directory that a restart keeps with no record entry |
| `CommitmentsSpec.UnreadableMetadataIsNotAnError` | src/plot/commitments.rs:41-45 | with a missing or unparseable file, reconciliation succeeds, removes nothing and starts from the empty record |
| `CommitmentsSpec.FinishedSurvivesRestart` | src/plot/commitments.rs:95-104 | once finishing succeeds, a restart keeps the salt's entry and keeps its directory exactly when it existed |
| `CommitmentsSpec.CreatedDirNeverStale` | src/plot/commitments.rs:48-52 | a salt the file lists as `Created` names none of the directories reconciliation removes |
| `CommitmentsSpec.FinishedSurvivesAnyRestart` | src/plot/commitments.rs:95-104 | once finishing succeeds, a restart keeps the salt's directory whether it succeeds or stops at a failed removal |
| `CommitmentsSpec.ReopenMakesFinishedStale` | src/plot/commitments.rs:77-80 | reopening a `Created` commitment after a restart writes it as `InProgress`, so the next restart deletes its directory |
| `CommitmentsSpec.ReconcileNotRepeatable` | src/plot/commitments.rs:47-53 | reconciliation leaves the file as it was, so after it drained an entry a second reconciliation over the same disk fails |
| `CommitmentsSpec.RemoveThenRestartFails` | src/plot/commitments.rs:107-116 | removing an open commitment that the file lists as `InProgress` leaves the file listing it, and the next restart fails on its missing directory |
| `CommitmentsSpec.RunPreservesInv` | src/plot/commitments.rs:63-118 | any sequence of operations, failures included, keeps the invariant |
| `CommitmentsSpec.UntouchedSaltStaysAbsent` | src/plot/commitments.rs:63-118 | a salt that no operation names never gets a handle, an entry, a directory or a line in the file |
| `Commitments.Directory.WriteMetadata` | src/plot/commitments.rs:81-86 | writing `metadata.json` changes only the file, as `WriteFile` says |
| `Commitments.Directory.RemoveDirAll` | src/plot/commitments.rs:113 | removing a directory changes only the set of directories, and only on success |
| `Commitments.Directory.OpenStore` | src/plot/commitments.rs:70-75 | opening a store yields the handle and creates the directory, or fails with no change |
| `Commitments.Commitments.Init` | src/plot/commitments.rs:55-59 | a fresh registry has no open handle and keeps the drained record |
| `Commitments.Commitments.New` | src/plot/commitments.rs:40-60 | construction succeeds exactly when every stale directory exists and is removed; the registry is then the reconciled one; on failure only stale directories are gone; the file is never written |
| `Commitments.Commitments.GetOrCreateDb` | src/plot/commitments.rs:63-91 | the registry and the directory change exactly as `GetOrCreate` says, with the same result; the invariant is kept |
| `Commitments.Commitments.FinishCommitmentCreation` | src/plot/commitments.rs:95-104 | the registry and the directory change exactly as `FinishCreation` says; the invariant is kept |
| `Commitments.Commitments.RemoveCommitment` | src/plot/commitments.rs:107-119 | the registry and the directory change exactly as `RemoveSalt` says; the invariant is kept |
| `Commitments.ReconcileExample` | src/plot/commitments.rs:47-59 | the record {A: Created, B: InProgress} with both directories reconciles to {A: Created}, with only A's directory left |

## Left out

- RocksDB is not modelled. Opening a store is one call that gives an opaque handle
  (`Opened`) or fails (`OpenFailed`); a successful open creates the salt's directory. A
  failed open is taken to leave the disk unchanged. `database.path()` is taken to be the
  salt's directory.
- The async runtime and `utils::spawn_blocking` are not modelled. Each file-system call
  is one atomic step whose outcome is a parameter.
- serde_json is not modelled. The file holds the in-memory record or nothing parseable.
  A failed write leaves the old file or an unparseable one. `unwrap()` on serialization
  is taken never to fail.
- `Arc` reference counting and other holders of a handle are not modelled. The model
  only removes the registry's handle before the directory removal, as lines 109-113 do.
- A failed `remove_dir_all` is taken to leave the directory in place. Its partly
  removed contents are not modelled.
- `Commitments.Commitments.New`: on failure the contract does not say which error
  comes back. Which stale entry fails first depends on the iteration order of a
  `HashMap`, which the model leaves nondeterministic.
- The error payloads (`rocksdb::Error`, `io::Error`) are reduced to `NotFound` or a
  plain I/O failure.
- The fixed width of a salt and the joining of paths under the base directory are not
  modelled. A directory is known by its name alone.
