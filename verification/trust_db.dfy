/**
 * The trust database: a persisted map from canonical paths to trust
 * records, the decision procedures that read it and the read-modify-write
 * operations that change it.
 */
module TrustDatabase {
  import opened Base

  /** One record of the database. */
  datatype Trust = Workspace(completely: bool) | File(hash: Bytes) | Untrusted

  /**
   * The collaborators the database calls but does not define: path
   * canonicalisation (which fails on a path that cannot be resolved), the
   * workspace locator, the platform encoding of a path as bytes, and SHA-256.
   */
  datatype Env = Env(
    canonicalize: Path -> Option<Path>,
    findWorkspaceIn: Path -> Path,
    pathBytes: Path -> Bytes,
    sha256: Bytes -> Bytes)

  /**
   * The fingerprint of a file: the hasher is fed the path's bytes and then
   * the contents, so the digest is that of their concatenation.
   */
  function HashFile(env: Env, path: Path, contents: Bytes): Bytes
  {
    env.sha256(env.pathBytes(path) + contents)
  }

  /** The digest never maps two different inputs to one value. */
  ghost predicate CollisionFree(env: Env)
  {
    forall a: Bytes, b: Bytes :: env.sha256(a) == env.sha256(b) ==> a == b
  }

  /** Under a collision-free digest, editing a file's contents changes its fingerprint. */
  lemma {:induction false} HashFileBindsContents(env: Env, path: Path, c1: Bytes, c2: Bytes)
    requires CollisionFree(env)
    requires c1 != c2
    ensures HashFile(env, path, c1) != HashFile(env, path, c2)
  {
    var p := env.pathBytes(path);
    assert (p + c1)[|p|..] == c1 && (p + c2)[|p|..] == c2;
    assert p + c1 != p + c2;
  }

  // ---------------------------------------------------------------------
  // Ancestor walk

  /** `k` is the length of the longest prefix of `path` that holds a record. */
  ghost predicate NearestRecorded(t: map<Path, Trust>, path: Path, k: int)
  {
    && 0 <= k <= |path|
    && path[..k] in t
    && forall j :: k < j <= |path| ==> path[..j] !in t
  }

  /** No prefix of `path`, neither `path` itself nor the root, holds a record. */
  ghost predicate NoRecordedAncestor(t: map<Path, Trust>, path: Path)
  {
    forall k :: 0 <= k <= |path| ==> path[..k] !in t
  }

  /**
   * The walk over the ancestors of `path`, starting with `path` itself and
   * ending at the root: the first one that holds a record decides, `true`
   * for a workspace record and `false` for any other.
   */
  function AncestorVerdict(t: map<Path, Trust>, path: Path): (r: Option<bool>)
    decreases |path|
    ensures r.None? <==> NoRecordedAncestor(t, path)
  {
    if path in t then
      assert path[..|path|] == path;
      Some(t[path].Workspace?)
    else if path == [] then
      None
    else
      var parent := path[..|path| - 1];
      assert path[..|path|] == path;
      assert forall k :: 0 <= k <= |parent| ==> parent[..k] == path[..k];
      AncestorVerdict(t, parent)
  }

  /** The verdict is that of the nearest recorded ancestor: `true` exactly for a workspace record. */
  lemma {:induction false} AncestorVerdictIsNearest(t: map<Path, Trust>, path: Path, k: int)
    requires NearestRecorded(t, path, k)
    ensures AncestorVerdict(t, path) == Some(t[path[..k]].Workspace?)
    decreases |path|
  {
    if k == |path| {
      assert path[..k] == path;
    } else {
      assert path[..|path|] == path;
      var parent := path[..|path| - 1];
      assert forall j :: 0 <= j <= |parent| ==> parent[..j] == path[..j];
      AncestorVerdictIsNearest(t, parent, k);
    }
  }

  // ---------------------------------------------------------------------
  // The in-memory database

  /** The deserialised database; a missing file stands for the default, `trust: None`. */
  datatype TrustDb = TrustDb(trust: Option<map<Path, Trust>>) {

    /** The map, or a new empty map when there is none. */
    function Records(): map<Path, Trust>
    {
      if trust.Some? then trust.value else map[]
    }

    /** The record stored at exactly `path`. */
    function Get(path: Path): (r: Option<Trust>)
      ensures r.Some? <==> trust.Some? && path in trust.value
      ensures r.Some? ==> r.value == trust.value[path]
    {
      if trust.Some? && path in trust.value then Some(trust.value[path]) else None
    }

    /**
     * Whether the record at the exact key `findWorkspaceIn(path)` is a
     * completely trusted workspace; no other ancestor is consulted.
     */
    predicate IsFileInCompletelyTrusted(findWorkspaceIn: Path -> Path, path: Path)
      ensures IsFileInCompletelyTrusted(findWorkspaceIn, path) <==>
                Get(findWorkspaceIn(path)) == Some(Workspace(true))
    {
      match Get(findWorkspaceIn(path))
      case Some(Workspace(completely)) => completely
      case _ => false
    }

    /**
     * Whether `path` holds a file record with exactly `fileHash`, or its
     * workspace is completely trusted.
     */
    predicate IsFileTrusted(findWorkspaceIn: Path -> Path, path: Path, fileHash: Bytes)
      ensures IsFileTrusted(findWorkspaceIn, path, fileHash) <==>
                || Get(path) == Some(File(fileHash))
                || Get(findWorkspaceIn(path)) == Some(Workspace(true))
    {
      || (match Get(path)
          case Some(File(hash)) => hash == fileHash
          case _ => false)
      || IsFileInCompletelyTrusted(findWorkspaceIn, path)
    }

    /**
     * The workspace verdict for `path`: `None` when there is no map or no
     * ancestor holds a record, otherwise whether the nearest record is a
     * workspace record.
     */
    function IsWorkspaceTrusted(path: Path): (r: Option<bool>)
      ensures r.None? <==> trust.None? || NoRecordedAncestor(trust.value, path)
    {
      if trust.Some? then AncestorVerdict(trust.value, path) else None
    }

    /**
     * Store `record` at `path`, creating the map first when there is none:
     * the new database and the record it replaced.
     */
    function Insert(path: Path, record: Trust): (r: (TrustDb, Option<Trust>))
      ensures r.0.trust.Some?
      ensures r.0.Get(path) == Some(record)
      ensures forall q :: q != path ==> r.0.Get(q) == Get(q)
      ensures r.1 == Get(path)
    {
      (TrustDb(Some(Records()[path := record])), Get(path))
    }

    /**
     * Delete the record at `path`, creating the map first when there is none:
     * the new database and the record it removed.
     */
    function Remove(path: Path): (r: (TrustDb, Option<Trust>))
      ensures r.0.trust.Some?
      ensures r.0.Get(path) == None
      ensures forall q :: q != path ==> r.0.Get(q) == Get(q)
      ensures r.1 == Get(path)
    {
      (TrustDb(Some(Records() - {path})), Get(path))
    }
  }

  /** A record at the queried path itself decides the workspace verdict. */
  lemma WorkspaceVerdictAtRecord(db: TrustDb, path: Path)
    requires db.Get(path).Some?
    ensures db.IsWorkspaceTrusted(path) == Some(db.Get(path).value.Workspace?)
  {
  }

  /** Revoking a workspace turns its verdict into an explicit denial, never "unknown". */
  lemma UntrustedWorkspaceIsDenied(db: TrustDb, path: Path)
    ensures db.Insert(path, Untrusted).0.IsWorkspaceTrusted(path) == Some(false)
  {
  }

  /** A record two or more levels up decides when nothing nearer holds one. */
  lemma {:induction false} DistantAncestorDecides(db: TrustDb, workspace: Path, rest: Path)
    requires db.Get(workspace).Some?
    requires forall j :: |workspace| < j <= |workspace + rest| ==> db.Get((workspace + rest)[..j]).None?
    ensures db.IsWorkspaceTrusted(workspace + rest) == Some(db.Get(workspace).value.Workspace?)
  {
    var path := workspace + rest;
    assert path[..|workspace|] == workspace;
    forall j | |workspace| < j <= |path|
      ensures path[..j] !in db.trust.value
    {
      assert db.Get(path[..j]).None?;
    }
    AncestorVerdictIsNearest(db.trust.value, path, |workspace|);
  }

  /** A freshly stored file record trusts exactly the contents it was computed from. */
  lemma TrustedFileIsTrusted(db: TrustDb, env: Env, path: Path, contents: Bytes)
    ensures db.Insert(path, File(HashFile(env, path, contents))).0
              .IsFileTrusted(env.findWorkspaceIn, path, HashFile(env, path, contents))
  {
  }

  /**
   * Any edit revokes file trust, unless the file's workspace is completely
   * trusted; this rests on the digest being collision-free.
   */
  lemma EditedFileIsNotTrusted(db: TrustDb, env: Env, path: Path, approved: Bytes, edited: Bytes)
    requires CollisionFree(env)
    requires approved != edited
    requires !db.IsFileInCompletelyTrusted(env.findWorkspaceIn, path)
    ensures !db.Insert(path, File(HashFile(env, path, approved))).0
               .IsFileTrusted(env.findWorkspaceIn, path, HashFile(env, path, edited))
  {
    HashFileBindsContents(env, path, approved, edited);
  }

  /**
   * Each grant changes its own key only, so two grants to different paths,
   * one after the other, both persist.
   */
  lemma SuccessiveGrantsBothPersist(db: TrustDb, a: Path, ra: Trust, b: Path, rb: Trust)
    requires a != b
    ensures var after := db.Insert(a, ra).0.Insert(b, rb).0;
            after.Get(a) == Some(ra) && after.Get(b) == Some(rb)
  {
  }

  /**
   * A completely trusted workspace trusts every file whose workspace is
   * located exactly there, whatever its contents and file record.
   */
  lemma CompletelyTrustedWorkspaceTrustsFiles(db: TrustDb, env: Env, workspace: Path, path: Path, fileHash: Bytes)
    requires env.findWorkspaceIn(path) == workspace
    ensures db.Insert(workspace, Workspace(true)).0.IsFileTrusted(env.findWorkspaceIn, path, fileHash)
  {
  }

  /**
   * Complete trust is looked up at the exact key the locator returns: a
   * completely trusted ancestor of that key does not count.
   */
  lemma CompleteTrustIsNotInherited(db: TrustDb, env: Env, ancestor: Path, path: Path, fileHash: Bytes)
    requires ancestor < env.findWorkspaceIn(path)
    requires db.Get(env.findWorkspaceIn(path)).None?
    requires db.Get(path).None?
    ensures !db.Insert(ancestor, Workspace(true)).0.IsFileTrusted(env.findWorkspaceIn, path, fileHash)
  {
  }

  // ---------------------------------------------------------------------
  // The persisted database

  /**
   * The I/O failures one call meets: taking the lock, reading the file (an
   * error of kind `NotFound` reads as a missing file) and writing it back.
   */
  datatype Faults = Faults(lock: Option<IoError>, read: Option<IoError>, write: Option<IoError>)

  const NoFaults := Faults(None, None, None)

  /** The database file on disk. */
  datatype StoreFile = Missing | Stored(db: TrustDb) | Corrupted {

    /**
     * Lock, read and parse: a missing file is the default database, any
     * other I/O error is returned, and a file that does not parse panics.
     */
    function Load(io: Faults): (r: Outcome<TrustDb>)
      ensures r.Ok? <==> io.lock.None? && (io.read.None? || io.read.value.kind == NotFound) && (io.read.Some? || !Corrupted?)
      ensures r.Ok? && (io.read.Some? || Missing?) ==> r.value == TrustDb(None)
      ensures r.Ok? && io.read.None? && Stored? ==> r.value == db
      ensures r.Panicked? <==> io.lock.None? && io.read.None? && Corrupted?
      ensures r.Err? ==> r.error == if io.lock.Some? then io.lock.value else io.read.value
    {
      if io.lock.Some? then Err(io.lock.value)
      else if io.read.Some? && io.read.value.kind != NotFound then Err(io.read.value)
      else if io.read.Some? || Missing? then Ok(TrustDb(None))
      else if Corrupted? then Panicked
      else Ok(db)
    }

    /** Apply the query `f` to the loaded database, or return the load's failure. */
    function Inspect<R>(io: Faults, f: TrustDb -> R): (r: Outcome<R>)
      ensures r.Ok? <==> Load(io).Ok?
      ensures r.Ok? ==> r.value == f(Load(io).value)
      ensures r.Err? <==> Load(io).Err?
      ensures r.Err? ==> r.error == Load(io).error
    {
      var loaded := Load(io);
      if loaded.Ok? then Ok(f(loaded.value)) else loaded.Cast()
    }

    /** The public `is_workspace_trusted`; an unresolvable path reads as denied. */
    function IsWorkspaceTrusted(env: Env, io: Faults, path: Path): (r: Outcome<Option<bool>>)
      ensures env.canonicalize(path).None? ==> r == Ok(Some(false))
      ensures env.canonicalize(path).Some? ==> (r.Ok? <==> Load(io).Ok?)
      ensures env.canonicalize(path).Some? && r.Ok? ==>
                r.value == Load(io).value.IsWorkspaceTrusted(env.canonicalize(path).value)
      ensures r.Panicked? ==> Corrupted?
      ensures env.canonicalize(path).Some? && !r.Ok? ==> r == Load(io).Cast()
    {
      match env.canonicalize(path)
      case None => Ok(Some(false))
      case Some(canonical) => Inspect(io, (db: TrustDb) => db.IsWorkspaceTrusted(canonical))
    }

    /** The public `is_file_trusted`; an unresolvable path is not trusted. */
    function IsFileTrusted(env: Env, io: Faults, path: Path, contents: Bytes): (r: Outcome<bool>)
      ensures env.canonicalize(path).None? ==> r == Ok(false)
      ensures env.canonicalize(path).Some? ==> (r.Ok? <==> Load(io).Ok?)
      ensures env.canonicalize(path).Some? && r.Ok? ==>
                var canonical := env.canonicalize(path).value;
                r.value == Load(io).value.IsFileTrusted(
                  env.findWorkspaceIn, canonical, HashFile(env, canonical, contents))
      ensures r.Panicked? ==> Corrupted?
      ensures env.canonicalize(path).Some? && !r.Ok? ==> r == Load(io).Cast()
    {
      match env.canonicalize(path)
      case None => Ok(false)
      case Some(canonical) =>
        var hash := HashFile(env, canonical, contents);
        Inspect(io, (db: TrustDb) => db.IsFileTrusted(env.findWorkspaceIn, canonical, hash))
    }
  }

  /** Canonicalisation failure is a soft outcome for both queries, without touching the file. */
  lemma UnresolvablePathQueries(file: StoreFile, env: Env, io: Faults, path: Path, contents: Bytes)
    requires env.canonicalize(path).None?
    ensures file.IsWorkspaceTrusted(env, io, path) == Ok(Some(false))
    ensures file.IsFileTrusted(env, io, path, contents) == Ok(false)
  {
  }

  /**
   * For a resolvable path whose nearest recorded ancestor is at prefix length
   * `k`, `is_workspace_trusted` answers whether that record is a workspace
   * record.
   */
  lemma WorkspaceQueryIsNearest(db: TrustDb, env: Env, path: Path, k: int)
    requires env.canonicalize(path).Some?
    requires db.trust.Some?
    requires NearestRecorded(db.trust.value, env.canonicalize(path).value, k)
    ensures var canonical := env.canonicalize(path).value;
            Stored(db).IsWorkspaceTrusted(env, NoFaults, path)
              == Ok(Some(db.trust.value[canonical[..k]].Workspace?))
  {
    AncestorVerdictIsNearest(db.trust.value, env.canonicalize(path).value, k);
  }

  /**
   * `is_file_trusted` succeeds exactly when the record at the canonical path
   * is a file record with the fingerprint of these contents, or the record at
   * the exact key the locator returns is a completely trusted workspace.
   */
  lemma FileTrustedIff(file: StoreFile, env: Env, io: Faults, path: Path, contents: Bytes)
    requires env.canonicalize(path).Some?
    requires file.Load(io).Ok?
    ensures var canonical := env.canonicalize(path).value;
            var db := file.Load(io).value;
            file.IsFileTrusted(env, io, path, contents) == Ok(
              || db.Get(canonical) == Some(File(HashFile(env, canonical, contents)))
              || db.Get(env.findWorkspaceIn(canonical)) == Some(Workspace(true)))
  {
  }

  /**
   * The shared trust database. Every public mutator canonicalises the path,
   * then loads, changes and writes back the whole file.
   */
  class TrustStore {
    var file: StoreFile

    constructor (file: StoreFile)
      ensures this.file == file
    {
      this.file := file;
    }

    /** Write the whole database back; a failed write leaves the file as it was. */
    method WriteBack(io: Faults, db: TrustDb) returns (error: Option<IoError>)
      modifies this
      ensures error == io.write
      ensures file == if io.write.None? then Stored(db) else old(file)
    {
      error := io.write;
      if error.None? {
        file := Stored(db);
      }
    }

    /**
     * `modify`: lock and load the database, apply the update `f`, and write
     * the whole database back. The update's answer is returned once the write
     * has succeeded; a load or write failure leaves the file as it was.
     */
    method Modify<R>(io: Faults, f: TrustDb -> (TrustDb, R)) returns (r: Outcome<R>)
      modifies this
      ensures var loaded := old(file.Load(io));
              if loaded.Ok? && io.write.None? then
                file == Stored(f(loaded.value).0) && r == Ok(f(loaded.value).1)
              else
                file == old(file) && r == (if loaded.Ok? then Err(io.write.value) else loaded.Cast())
    {
      var loaded := file.Load(io);
      if !loaded.Ok? {
        return loaded.Cast();
      }
      var (next, answer) := f(loaded.value);
      var error := WriteBack(io, next);
      if error.Some? {
        return Err(error.value);
      }
      r := Ok(answer);
    }

    /** `trust_workspace`: store `Workspace{completely}` and return the record it replaced. */
    method TrustWorkspace(env: Env, io: Faults, path: Path, completely: bool) returns (r: Outcome<Option<Trust>>)
      modifies this
      ensures env.canonicalize(path).None? ==> r == Ok(None) && file == old(file)
      ensures env.canonicalize(path).Some? ==>
                var canonical := env.canonicalize(path).value;
                var loaded := old(file.Load(io));
                if loaded.Ok? && io.write.None? then
                  var (next, previous) := loaded.value.Insert(canonical, Workspace(completely));
                  file == Stored(next) && r == Ok(previous)
                else
                  file == old(file) && r == (if loaded.Ok? then Err(io.write.value) else loaded.Cast())
      ensures r.Ok? && env.canonicalize(path).Some? ==>
                file.IsWorkspaceTrusted(env, NoFaults, path) == Ok(Some(true))
    {
      var canonical := env.canonicalize(path);
      if canonical.None? {
        return Ok(None);
      }
      var key := canonical.value;
      r := Modify(io, (db: TrustDb) => db.Insert(key, Workspace(completely)));
      if r.Ok? {
        WorkspaceVerdictAtRecord(file.db, key);
      }
    }

    /** `untrust_workspace`: store `Untrusted` and return the record it replaced. */
    method UntrustWorkspace(env: Env, io: Faults, path: Path) returns (r: Outcome<Option<Trust>>)
      modifies this
      ensures env.canonicalize(path).None? ==> r == Ok(None) && file == old(file)
      ensures env.canonicalize(path).Some? ==>
                var canonical := env.canonicalize(path).value;
                var loaded := old(file.Load(io));
                if loaded.Ok? && io.write.None? then
                  var (next, previous) := loaded.value.Insert(canonical, Untrusted);
                  file == Stored(next) && r == Ok(previous)
                else
                  file == old(file) && r == (if loaded.Ok? then Err(io.write.value) else loaded.Cast())
      ensures r.Ok? ==> file.IsWorkspaceTrusted(env, NoFaults, path) == Ok(Some(false))
    {
      var canonical := env.canonicalize(path);
      if canonical.None? {
        return Ok(None);
      }
      var key := canonical.value;
      r := Modify(io, (db: TrustDb) => db.Insert(key, Untrusted));
      if r.Ok? {
        WorkspaceVerdictAtRecord(file.db, key);
      }
    }

    /** `trust_file`: store the contents' fingerprint; `true` iff the path held no record before. */
    method TrustFile(env: Env, io: Faults, path: Path, contents: Bytes) returns (r: Outcome<bool>)
      modifies this
      ensures env.canonicalize(path).None? ==> r == Ok(false) && file == old(file)
      ensures env.canonicalize(path).Some? ==>
                var canonical := env.canonicalize(path).value;
                var loaded := old(file.Load(io));
                if loaded.Ok? && io.write.None? then
                  var (next, previous) := loaded.value.Insert(canonical, File(HashFile(env, canonical, contents)));
                  file == Stored(next) && r == Ok(previous.None?)
                else
                  file == old(file) && r == (if loaded.Ok? then Err(io.write.value) else loaded.Cast())
      ensures r.Ok? && env.canonicalize(path).Some? ==>
                file.IsFileTrusted(env, NoFaults, path, contents) == Ok(true)
    {
      var canonical := env.canonicalize(path);
      if canonical.None? {
        return Ok(false);
      }
      var key := canonical.value;
      var hash := HashFile(env, key, contents);
      r := Modify(io, (db: TrustDb) => var (next, previous) := db.Insert(key, File(hash)); (next, previous.None?));
    }

    /** `untrust_file`: remove whatever record the path holds; `true` iff there was one. */
    method UntrustFile(env: Env, io: Faults, path: Path) returns (r: Outcome<bool>)
      modifies this
      ensures env.canonicalize(path).None? ==> r == Ok(false) && file == old(file)
      ensures env.canonicalize(path).Some? ==>
                var canonical := env.canonicalize(path).value;
                var loaded := old(file.Load(io));
                if loaded.Ok? && io.write.None? then
                  var (next, previous) := loaded.value.Remove(canonical);
                  file == Stored(next) && r == Ok(previous.Some?)
                else
                  file == old(file) && r == (if loaded.Ok? then Err(io.write.value) else loaded.Cast())
      ensures r.Ok? && env.canonicalize(path).Some? ==> file.db.Get(env.canonicalize(path).value).None?
    {
      var canonical := env.canonicalize(path);
      if canonical.None? {
        return Ok(false);
      }
      var key := canonical.value;
      r := Modify(io, (db: TrustDb) => var (next, previous) := db.Remove(key); (next, previous.Some?));
    }
  }
}
