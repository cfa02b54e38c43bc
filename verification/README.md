# Helix workspace trust: trust database and language-configuration loading

This project models, in Dafny, the part of the Helix editor that decides whether
a workspace, and the local `languages.toml` it carries, may be trusted. It also
models how the language configuration is assembled from the built-in default,
the user's global file and, when trusted, the workspace-local file.

- `base.dfy` (module `Base`): paths as lists of components (`[]` is `/`), bytes,
  `Option`, I/O errors with their `ErrorKind`, the result of reading a file,
  and `Outcome`. `Outcome` is an operation's `std::io::Result` plus the panic
  raised on a corrupted database file.
- `trust_db.dfy` (module `TrustDatabase`) models `helix-loader/src/trust_db.rs`:
  - `Trust` is the three-way record: `Workspace{completely}`, `File{hash}` or `Untrusted`.
  - `TrustDb` is the deserialised database, `trust: Option<map<Path, Trust>>`. It
    carries the pure queries (`IsFileInCompletelyTrusted`, `IsFileTrusted`,
    `IsWorkspaceTrusted`, the last through the ancestor walk `AncestorVerdict`)
    and the two map updates the mutators apply (`Insert`, `Remove`).
  - `StoreFile` is the file on disk: missing, stored or corrupted. Its `Load`
    locks, reads and parses the file, and `Inspect` applies a query to the
    loaded database. The public queries `is_workspace_trusted` and
    `is_file_trusted` are its `IsWorkspaceTrusted` and `IsFileTrusted`.
  - Class `TrustStore` holds the persisted file. It has one method per public
    mutator: `TrustWorkspace`, `UntrustWorkspace`, `TrustFile` and `UntrustFile`.
    Each one canonicalises the path and hands its map update to `Modify`.
    `Modify` loads the database, applies the update, and writes the whole
    document back.
- `config.dfy` (module `LangConfig`) models `helix-loader/src/config.rs`:
  - `IsLocalLangConfigTrusted`;
  - `UserLangConfig`, built from its steps: the directory list, the joined
    file names, the `filter_map` that skips unreadable files, the `collect` into
    a `Result`, and the left fold onto the default.

The model takes as parameters the collaborators whose code is not part of this
model:
- path canonicalisation (a partial function);
- `find_workspace_in`;
- the platform byte encoding of a path;
- SHA-256;
- the I/O faults each call meets (lock, read, write);
- `config_dir`, `find_workspace`, `workspace_languages_file`;
- file reading and TOML parsing;
- `default_lang_config`;
- `merge_toml_values`.

The TOML value and the parse error are the type parameters `V` and `E`.

The model follows the code on these points:
- `user_lang_config` returns the parse error of a candidate file as `Err`. Only
  read failures are skipped.
- "Completely trusted" is looked up at the exact key `find_workspace_in(path)`.
  It is not the nearest ancestor workspace record.
- `untrust_file` removes any record at the path, including a `Workspace` or
  `Untrusted` one.
- A `File` record at an ancestor makes `is_workspace_trusted` answer `Some(false)`.
- An unresolvable path makes `is_workspace_trusted` answer `Some(false)`. That
  answer is the same as an explicit denial.

## Model

| member | source | states |
|---|---|---|
| `TrustDatabase.HashFile` | helix-loader/src/trust_db.rs:120-125 | The fingerprint is the digest of the path's bytes followed by the contents. Its binding to the contents is stated by `HashFileBindsContents`. |
| `TrustDatabase.HashFileBindsContents` | helix-loader/src/trust_db.rs:120-125 | Suppose the digest is collision-free. Then the fingerprint of (path ‖ contents) differs for any two different contents at the same path. |
| `TrustDatabase.AncestorVerdict` | helix-loader/src/trust_db.rs:45-52 | The ancestor walk finds nothing exactly when no prefix of the path holds a record. The prefixes run from the path itself down to the root. |
| `TrustDatabase.AncestorVerdictIsNearest` | helix-loader/src/trust_db.rs:45-52 | The walk returns the verdict of the nearest recorded ancestor. It is `Some(true)` exactly when that record is `Workspace{..}`, whatever `completely` is, and `Some(false)` for `File` or `Untrusted`. |
| `TrustDatabase.TrustDb.IsWorkspaceTrusted` | helix-loader/src/trust_db.rs:45-52 | The answer is `None` exactly when there is no map or no ancestor of the path holds a record. |
| `TrustDatabase.DistantAncestorDecides` | helix-loader/src/trust_db.rs:45-52 | A record several levels above the path decides when no nearer prefix holds one. The answer is not "unknown". |
| `TrustDatabase.WorkspaceVerdictAtRecord` | helix-loader/src/trust_db.rs:47-49 | A record at the queried path itself decides the verdict. |
| `TrustDatabase.TrustDb.Get` | helix-loader/src/trust_db.rs:38 | The lookup finds a record exactly when the map exists and holds the key, and returns that record. |
| `TrustDatabase.TrustDb.IsFileInCompletelyTrusted` | helix-loader/src/trust_db.rs:27-35 | It is true only for a `Workspace{completely: true}` record at the exact key `find_workspace_in(path)`. `CompletelyTrustedWorkspaceTrustsFiles` and `CompleteTrustIsNotInherited` state this. |
| `TrustDatabase.TrustDb.IsFileTrusted` | helix-loader/src/trust_db.rs:36-43 | It is true for a matching `File` hash at the path or for complete trust. `TrustedFileIsTrusted`, `EditedFileIsNotTrusted` and `FileTrustedIff` state this. |
| `TrustDatabase.TrustDb.Insert` | helix-loader/src/trust_db.rs:140-144 | Storing a record, after creating the map when there is none, leaves exactly `record` at `path`. It leaves every other key unchanged and returns the record it replaced, or `None`. |
| `TrustDatabase.TrustDb.Remove` | helix-loader/src/trust_db.rs:182-187 | Deleting a record, after creating the map when there is none, leaves no record at `path`, whatever kind was there. It leaves every other key unchanged and returns what was removed. |
| `TrustDatabase.UntrustedWorkspaceIsDenied` | helix-loader/src/trust_db.rs:147-156 | Once `Untrusted` is stored at a path, the workspace verdict there is `Some(false)`, an explicit denial, never `None`. |
| `TrustDatabase.SuccessiveGrantsBothPersist` | helix-loader/src/trust_db.rs:91-118 | Two read-modify-writes on different keys, one after the other, both persist. |
| `TrustDatabase.TrustedFileIsTrusted` | helix-loader/src/trust_db.rs:165-176 | Right after a file record is stored with the fingerprint of (canonical path, contents), the same contents at that path are trusted. |
| `TrustDatabase.EditedFileIsNotTrusted` | helix-loader/src/trust_db.rs:36-43 | Suppose the digest is collision-free and the workspace is not completely trusted. Then, after the fingerprint of some contents is stored, any other contents at that path are not trusted. |
| `TrustDatabase.CompletelyTrustedWorkspaceTrustsFiles` | helix-loader/src/trust_db.rs:27-35 | A `Workspace{completely: true}` record at the exact key `find_workspace_in(path)` trusts that file whatever its contents. |
| `TrustDatabase.CompleteTrustIsNotInherited` | helix-loader/src/trust_db.rs:29 | A completely trusted strict ancestor of `find_workspace_in(path)` does not trust the file when neither that key nor the path holds a record. |
| `TrustDatabase.StoreFile.Load` | helix-loader/src/trust_db.rs:69-85 | A lock error is returned first. Otherwise a read error other than `NotFound` is returned. A missing file loads as the default `trust: None`. A stored file loads as its contents. A corrupted file, read without error, panics. |
| `TrustDatabase.StoreFile.Inspect` | helix-loader/src/trust_db.rs:65-89 | A query runs on the loaded database, and any load failure is returned in its place. `StoreFile.Load` states the load. `WorkspaceQueryIsNearest` and `FileTrustedIff` state its two uses. |
| `TrustDatabase.StoreFile.IsWorkspaceTrusted` | helix-loader/src/trust_db.rs:158-163 | For a resolvable path, the answer is the verdict of the canonical path's nearest recorded ancestor (`WorkspaceQueryIsNearest`). For an unresolvable path it is `Ok(Some(false))` (`UnresolvablePathQueries`). Otherwise it succeeds exactly when the load does. On a failed load it returns that load's own error, or panics exactly when a corrupted file was read. |
| `TrustDatabase.WorkspaceQueryIsNearest` | helix-loader/src/trust_db.rs:158-163 | For a resolvable path on a stored database, the answer is `Ok(Some(b))`. `b` says whether the canonical path's nearest recorded ancestor holds a `Workspace` record. |
| `TrustDatabase.StoreFile.IsFileTrusted` | helix-loader/src/trust_db.rs:190-196 | The contents are fingerprinted with the canonical path and checked against the loaded database (`FileTrustedIff`). An unresolvable path gives `Ok(false)` (`UnresolvablePathQueries`). Otherwise it succeeds exactly when the load does. On a failed load it returns that load's own error, or panics exactly when a corrupted file was read. |
| `TrustDatabase.UnresolvablePathQueries` | helix-loader/src/trust_db.rs:158-161 | When canonicalisation fails, `is_workspace_trusted` answers `Ok(Some(false))` and `is_file_trusted` answers `Ok(false)`. Neither touches the file. |
| `TrustDatabase.FileTrustedIff` | helix-loader/src/trust_db.rs:27-43 | `is_file_trusted` is `Ok(true)` exactly when one of two records is found. The record at the canonical path may be `File{h}` with `h` the fingerprint of (canonical path, contents). Or the record at the exact key `find_workspace_in(canonical path)` may be `Workspace{completely: true}`. |
| `TrustDatabase.TrustStore.Modify` | helix-loader/src/trust_db.rs:91-118 | When the load and the write succeed, the file becomes the updated database and the update's answer is returned. A load failure is returned as it is, and a write failure returns its error; both leave the file unchanged. |
| `TrustDatabase.TrustStore.WriteBack` | helix-loader/src/trust_db.rs:112-117 | The whole database replaces the file. A failed write returns its error. |
| `TrustDatabase.TrustStore.TrustWorkspace` | helix-loader/src/trust_db.rs:136-145 | An unresolvable path gives `Ok(None)` and leaves the file unchanged. Otherwise the loaded database with `Workspace{completely}` at the canonical path is written, and the previous record there is returned; a load or write failure leaves the file unchanged. The workspace then reads as trusted. |
| `TrustDatabase.TrustStore.UntrustWorkspace` | helix-loader/src/trust_db.rs:147-156 | The same as `TrustWorkspace`, but the record written is `Untrusted`. On any `Ok` result, `is_workspace_trusted` of the same path answers `Some(false)`. |
| `TrustDatabase.TrustStore.TrustFile` | helix-loader/src/trust_db.rs:165-176 | The file record is overwritten with `File{hash(canonical path, contents)}`. The result is `Ok(true)` exactly when the path held no record of any kind. Afterwards `is_file_trusted(path, contents)` is `Ok(true)`. An unresolvable path gives `Ok(false)` with no change. |
| `TrustDatabase.TrustStore.UntrustFile` | helix-loader/src/trust_db.rs:178-188 | Any record at the canonical path is removed, and the result says whether one existed. No other key changes. An unresolvable path gives `Ok(false)` with no change. |
| `LangConfig.IsLocalLangConfigTrusted` | helix-loader/src/config.rs:12-25 | A `NotFound` read gives `Ok(false)`. Any other read error is returned as `Err`. A readable file gives exactly `is_file_trusted(path, contents)`. |
| `LangConfig.CompletelyTrustedWorkspaceTrustsLocalConfig` | helix-loader/src/config.rs:24 | A completely trusted workspace, located at the languages file's workspace root, trusts that file whatever its contents. |
| `LangConfig.ConfigDirs` | helix-loader/src/config.rs:29-32 | The global configuration directory always comes first. The workspace `.helix` directory comes second, and only when `use_local` is set. |
| `LangConfig.CandidateFiles` | helix-loader/src/config.rs:36 | Every candidate directory is joined with `languages.toml`, in order. |
| `LangConfig.ParsedFile` | helix-loader/src/config.rs:37-41 | One candidate yields exactly one result, its parse, when it can be read. When it cannot be read, it yields nothing. |
| `LangConfig.ReadAndParse` | helix-loader/src/config.rs:37-41 | Every result is the parse of a readable candidate. There are no more results than candidates, and none when no candidate can be read. |
| `LangConfig.ReadAndParseAppend` | helix-loader/src/config.rs:37-41 | The skip-unreadable step processes each candidate on its own, in order. |
| `LangConfig.Collect` | helix-loader/src/config.rs:42 | The result is every parsed value, in order, exactly when every readable candidate parsed. Otherwise it is the first parse error. |
| `LangConfig.MergeAll` | helix-loader/src/config.rs:43-46 | With no documents the result is the default. Otherwise the last document is merged at depth 3 over the fold of all earlier ones. |
| `LangConfig.UserLangConfig` | helix-loader/src/config.rs:28-49 | An error is always the parse error of a readable candidate file. With no readable candidate the result is `Ok(default)`. The case lemmas below give the merged value for every combination of the two files. |
| `LangConfig.CandidatesParsed` | helix-loader/src/config.rs:29-41 | Only the global file is read, followed by the local one only when `use_local` is set. |
| `LangConfig.NothingReadableGivesDefault` | helix-loader/src/config.rs:43-46 | When no candidate can be read, the result is the default configuration. |
| `LangConfig.GlobalParseErrorReturned` | helix-loader/src/config.rs:38-42 | A global file that reads but does not parse makes the whole result that error. |
| `LangConfig.LocalParseErrorReturned` | helix-loader/src/config.rs:37-42 | A local file that reads but does not parse makes the whole result that error. The exception is a global file that failed to parse first. |
| `LangConfig.GlobalOnlyMerged` | helix-loader/src/config.rs:44-46 | When only the global file is taken, the result is that file merged over the default. |
| `LangConfig.LocalMergedOverGlobal` | helix-loader/src/config.rs:44-46 | When both files parse, the result is `merge(merge(default, global, 3), local, 3)`: the local file wins. |
| `LangConfig.LocalOnlyMerged` | helix-loader/src/config.rs:34-46 | When the global file cannot be read and the local file parses, the result is `merge(default, local, 3)`. |
| `LangConfig.LocalFileIgnoredWhenDisabled` | helix-loader/src/config.rs:29-32 | With `use_local = false` the result depends on nothing but the global file. The workspace file is never read, even when it is malformed. |
| `LangConfig.UnreadableLocalFileSkipped` | helix-loader/src/config.rs:37-41 | An unreadable local file is skipped without error. The result equals the one with local loading disabled. |

## Left out

- The cross-process exclusive lock on `trust_db.lock` and the concurrency it
  guards are not modelled. A lock failure is an input. Each operation is one
  atomic transition of `TrustStore.file`.
- TOML serialisation and deserialisation are not modelled, and neither is the
  byte-level file I/O. The file is missing, a stored `TrustDb`, or corrupted.
  Read, lock and write failures are inputs to each call.
- `TrustStore.WriteBack`: a failed `std::fs::write` may leave the file partly
  written. The model leaves it unchanged.
- The panic on a corrupted database is the `Panicked` outcome, not a process
  abort.
- Paths that are not valid UTF-8 are not modelled: `Path` is a list of strings.
  On Unix, `canonicalize` can return such a path. Serialising a database with
  one as a key fails, and the `expect` at helix-loader/src/trust_db.rs:113-114
  then panics. No modelled outcome covers this.
- SHA-256 is a parameter. "Any edit revokes file trust" is proved only under
  the stated collision-freedom assumption (`CollisionFree`).
- `initialize_trust_db`, `trust_db_file`, `trust_db_lock_file` and the
  `data_dir` they build on are not modelled. They create a directory and
  compute fixed file names.
- `canonicalize`, `find_workspace_in`, `find_workspace`, `config_dir` and
  `workspace_languages_file` depend on the filesystem. They are parameters.
- `merge_toml_values` is not part of this model, so its depth-bounded replace
  semantics are not checked. It is a parameter called with depth 3.
- `default_lang_config` parses the embedded `languages.toml` and panics if it
  does not parse. It is a parameter.
- Reading `languages.toml` with `read_to_string` also rejects invalid UTF-8.
  That check is part of the read result the model takes as input.
- `helix-term/src/handlers/trust.rs` is not part of this model. It holds the
  picker UI, the document-open hook and the asynchronous dispatch. Its three
  choices call the modelled `UntrustWorkspace` and `TrustWorkspace`.
