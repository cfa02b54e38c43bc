/**
 * Loading the language configuration: the built-in default, overlaid with
 * the user's global file and, when the caller allows it, the workspace's
 * local file; and the check that decides whether the local file is trusted.
 */
module LangConfig {
  import opened Base
  import TrustDatabase

  /** The outcome of parsing a document: its value, or the parser's error. */
  datatype Result<+V, +E> = Success(value: V) | Failure(error: E)

  /** Merge depth given to `merge_toml_values` for every candidate document. */
  const MergeDepth: nat := 3

  const LanguagesFile := "languages.toml"

  /**
   * `is_local_lang_config_trusted`: a missing workspace languages file is
   * not trusted, any other read error is returned, and a readable one is
   * trusted exactly when the trust database trusts its contents.
   */
  function IsLocalLangConfigTrusted(
    store: TrustDatabase.StoreFile, env: TrustDatabase.Env, io: TrustDatabase.Faults,
    languagesFile: Path, read: ReadResult): (r: Outcome<bool>)
    ensures read.ReadFailed? && read.error.kind == NotFound ==> r == Ok(false)
    ensures read.ReadFailed? && read.error.kind != NotFound ==> r == Err(read.error)
    ensures read.Read? ==> r == store.IsFileTrusted(env, io, languagesFile, read.contents)
  {
    match read
    case ReadFailed(e) => if e.kind == NotFound then Ok(false) else Err(e)
    case Read(contents) => store.IsFileTrusted(env, io, languagesFile, contents)
  }

  /**
   * A workspace trusted completely trusts its local languages file, whatever
   * its contents, when the locator places that file in the workspace.
   */
  lemma CompletelyTrustedWorkspaceTrustsLocalConfig(
    db: TrustDatabase.TrustDb, env: TrustDatabase.Env, workspace: Path,
    languagesFile: Path, contents: Bytes)
    requires env.canonicalize(languagesFile).Some?
    requires env.findWorkspaceIn(env.canonicalize(languagesFile).value) == workspace
    ensures var store := TrustDatabase.Stored(db.Insert(workspace, TrustDatabase.Workspace(true)).0);
            IsLocalLangConfigTrusted(store, env, TrustDatabase.NoFaults, languagesFile, Read(contents)) == Ok(true)
  {
  }

  /** The directories searched: the global configuration directory, then the workspace's `.helix` when allowed. */
  function ConfigDirs(configDir: Path, workspace: Path, useLocal: bool): (dirs: seq<Path>)
    ensures |dirs| == if useLocal then 2 else 1
    ensures dirs[0] == configDir
    ensures useLocal ==> dirs[1] == workspace + [".helix"]
  {
    if useLocal then [configDir, workspace + [".helix"]] else [configDir]
  }

  /** Each directory joined with `languages.toml`. */
  function CandidateFiles(dirs: seq<Path>): (files: seq<Path>)
    ensures |files| == |dirs|
    ensures forall i :: 0 <= i < |dirs| ==> files[i] == dirs[i] + [LanguagesFile]
  {
    seq(|dirs|, i requires 0 <= i < |dirs| => dirs[i] + [LanguagesFile])
  }

  /** One candidate file: its parse result when it can be read, nothing when it cannot. */
  function ParsedFile<V, E>(file: Path, read: Path -> ReadResult, parse: Bytes -> Result<V, E>)
    : (r: seq<Result<V, E>>)
    ensures |r| <= 1
    ensures |r| == 1 <==> read(file).Read?
    ensures |r| == 1 ==> r[0] == parse(read(file).contents)
  {
    match read(file)
    case Read(text) => [parse(text)]
    case ReadFailed(_) => []
  }

  /**
   * Every candidate in order: unreadable files are dropped without error,
   * readable ones are parsed. Each result is the parse of a readable
   * candidate, and no readable candidate means no result.
   */
  function ReadAndParse<V, E>(files: seq<Path>, read: Path -> ReadResult, parse: Bytes -> Result<V, E>)
    : (r: seq<Result<V, E>>)
    ensures |r| <= |files|
    ensures forall i :: 0 <= i < |r| ==>
              exists f :: f in files && read(f).Read? && r[i] == parse(read(f).contents)
    ensures (forall f :: f in files ==> read(f).ReadFailed?) ==> r == []
  {
    if files == [] then [] else ParsedFile(files[0], read, parse) + ReadAndParse(files[1..], read, parse)
  }

  /** Concatenation does not depend on grouping. */
  lemma ConcatAssociative<T>(x: seq<T>, y: seq<T>, z: seq<T>)
    ensures x + (y + z) == x + y + z
  {
  }

  /** Reading and parsing two lists of candidates in a row gives the two results in a row. */
  lemma {:induction false} ReadAndParseAppend<V, E>(
    a: seq<Path>, b: seq<Path>, read: Path -> ReadResult, parse: Bytes -> Result<V, E>)
    ensures ReadAndParse(a + b, read, parse) == ReadAndParse(a, read, parse) + ReadAndParse(b, read, parse)
  {
    if a != [] {
      var head := ParsedFile(a[0], read, parse);
      assert (a + b)[0] == a[0];
      assert (a + b)[1..] == a[1..] + b;
      calc {
        ReadAndParse(a + b, read, parse);
        head + ReadAndParse(a[1..] + b, read, parse);
        { ReadAndParseAppend(a[1..], b, read, parse); }
        head + (ReadAndParse(a[1..], read, parse) + ReadAndParse(b, read, parse));
        { ConcatAssociative(head, ReadAndParse(a[1..], read, parse), ReadAndParse(b, read, parse)); }
        head + ReadAndParse(a[1..], read, parse) + ReadAndParse(b, read, parse);
      }
    } else {
      assert a + b == b;
    }
  }

  /**
   * Gathering the parse results into one result: every value when all
   * documents parsed, otherwise the first parse error in order.
   */
  function Collect<V, E>(results: seq<Result<V, E>>): (r: Result<seq<V>, E>)
    ensures r.Success? <==> forall i :: 0 <= i < |results| ==> results[i].Success?
    ensures r.Success? ==>
              && |r.value| == |results|
              && (forall i :: 0 <= i < |results| ==> results[i] == Success(r.value[i]))
    ensures r.Failure? ==>
              exists i :: && 0 <= i < |results|
                          && results[i] == Failure(r.error)
                          && (forall j :: 0 <= j < i ==> results[j].Success?)
  {
    if results == [] then Success([])
    else match results[0]
      case Failure(e) => Failure(e)
      case Success(v) =>
        match Collect(results[1..])
        case Failure(e) => Failure(e)
        case Success(vs) => Success([v] + vs)
  }

  /**
   * The left fold of the documents onto `base`, each merged at depth
   * `MergeDepth`: no document leaves `base` as it is, and the last document
   * is merged over the fold of all those before it.
   */
  function MergeAll<V>(base: V, docs: seq<V>, merge: (V, V, nat) -> V): (r: V)
    ensures docs == [] ==> r == base
    ensures docs != [] ==>
              r == merge(MergeAll(base, docs[..|docs| - 1], merge), docs[|docs| - 1], MergeDepth)
  {
    if docs == [] then base
    else
      var rest := docs[1..];
      assert rest != [] ==> rest[..|rest| - 1] == docs[..|docs| - 1][1..] && rest[|rest| - 1] == docs[|docs| - 1];
      assert docs[..|docs| - 1] != [] ==> docs[..|docs| - 1][0] == docs[0];
      MergeAll(merge(base, docs[0], MergeDepth), rest, merge)
  }

  /**
   * `user_lang_config`: the default configuration with every readable
   * candidate merged over it in order, or the first parse error. An error
   * always comes from a readable candidate that does not parse, and with no
   * readable candidate the result is the default.
   */
  function UserLangConfig<V, E>(
    useLocal: bool, configDir: Path, workspace: Path,
    read: Path -> ReadResult, parse: Bytes -> Result<V, E>,
    default: V, merge: (V, V, nat) -> V): (r: Result<V, E>)
    ensures r.Failure? ==>
              exists f :: && f in CandidateFiles(ConfigDirs(configDir, workspace, useLocal))
                          && read(f).Read?
                          && parse(read(f).contents) == Failure(r.error)
    ensures (forall f :: f in CandidateFiles(ConfigDirs(configDir, workspace, useLocal)) ==> read(f).ReadFailed?)
              ==> r == Success(default)
  {
    var files := CandidateFiles(ConfigDirs(configDir, workspace, useLocal));
    match Collect(ReadAndParse(files, read, parse))
    case Failure(e) => Failure(e)
    case Success(docs) => Success(MergeAll(default, docs, merge))
  }

  /** The global configuration file. */
  function GlobalFile(configDir: Path): Path
  {
    configDir + [LanguagesFile]
  }

  /** The workspace-local configuration file. */
  function LocalFile(workspace: Path): Path
  {
    workspace + [".helix", LanguagesFile]
  }

  /** The candidates read are the global file, then the local one only when allowed. */
  lemma {:induction false} CandidatesParsed<V, E>(
    useLocal: bool, configDir: Path, workspace: Path,
    read: Path -> ReadResult, parse: Bytes -> Result<V, E>)
    ensures ReadAndParse(CandidateFiles(ConfigDirs(configDir, workspace, useLocal)), read, parse)
         == ParsedFile(GlobalFile(configDir), read, parse)
            + (if useLocal then ParsedFile(LocalFile(workspace), read, parse) else [])
  {
    var files := CandidateFiles(ConfigDirs(configDir, workspace, useLocal));
    assert files[0] == GlobalFile(configDir);
    assert [files[0]][1..] == [];
    if useLocal {
      assert files[1] == LocalFile(workspace);
      assert [files[1]][1..] == [];
      assert files == [files[0]] + [files[1]];
      ReadAndParseAppend([files[0]], [files[1]], read, parse);
    } else {
      assert files == [files[0]];
    }
  }

  /** When no candidate file can be read, the result is the default configuration. */
  lemma NothingReadableGivesDefault<V, E>(
    useLocal: bool, configDir: Path, workspace: Path,
    read: Path -> ReadResult, parse: Bytes -> Result<V, E>,
    default: V, merge: (V, V, nat) -> V)
    requires read(GlobalFile(configDir)).ReadFailed?
    requires useLocal ==> read(LocalFile(workspace)).ReadFailed?
    ensures UserLangConfig(useLocal, configDir, workspace, read, parse, default, merge) == Success(default)
  {
    CandidatesParsed(useLocal, configDir, workspace, read, parse);
  }

  /** A global file that reads but does not parse makes the whole result that parse error. */
  lemma GlobalParseErrorReturned<V, E>(
    useLocal: bool, configDir: Path, workspace: Path,
    read: Path -> ReadResult, parse: Bytes -> Result<V, E>,
    default: V, merge: (V, V, nat) -> V)
    requires read(GlobalFile(configDir)).Read?
    requires parse(read(GlobalFile(configDir)).contents).Failure?
    ensures UserLangConfig(useLocal, configDir, workspace, read, parse, default, merge)
         == Failure(parse(read(GlobalFile(configDir)).contents).error)
  {
    CandidatesParsed(useLocal, configDir, workspace, read, parse);
  }

  /**
   * A local file that reads but does not parse makes the whole result that
   * parse error, unless the global file failed to parse first.
   */
  lemma LocalParseErrorReturned<V, E>(
    configDir: Path, workspace: Path,
    read: Path -> ReadResult, parse: Bytes -> Result<V, E>,
    default: V, merge: (V, V, nat) -> V)
    requires read(GlobalFile(configDir)).ReadFailed? || parse(read(GlobalFile(configDir)).contents).Success?
    requires read(LocalFile(workspace)).Read?
    requires parse(read(LocalFile(workspace)).contents).Failure?
    ensures UserLangConfig(true, configDir, workspace, read, parse, default, merge)
         == Failure(parse(read(LocalFile(workspace)).contents).error)
  {
    CandidatesParsed(true, configDir, workspace, read, parse);
    var failed: seq<Result<V, E>> := [parse(read(LocalFile(workspace)).contents)];
    assert failed[1..] == [] && Collect(failed).Failure?;
    if read(GlobalFile(configDir)).Read? {
      var docs := [parse(read(GlobalFile(configDir)).contents)] + failed;
      assert docs[1..] == failed;
    } else {
      assert [] + failed == failed;
    }
  }

  /** With only the global file taken, the result is that file merged over the default. */
  lemma GlobalOnlyMerged<V, E>(
    useLocal: bool, configDir: Path, workspace: Path,
    read: Path -> ReadResult, parse: Bytes -> Result<V, E>,
    default: V, merge: (V, V, nat) -> V)
    requires read(GlobalFile(configDir)).Read?
    requires parse(read(GlobalFile(configDir)).contents).Success?
    requires useLocal ==> read(LocalFile(workspace)).ReadFailed?
    ensures UserLangConfig(useLocal, configDir, workspace, read, parse, default, merge)
         == Success(merge(default, parse(read(GlobalFile(configDir)).contents).value, MergeDepth))
  {
    CandidatesParsed(useLocal, configDir, workspace, read, parse);
    var global := parse(read(GlobalFile(configDir)).contents).value;
    var docs: seq<Result<V, E>> := [Success(global)];
    assert docs[1..] == [];
    assert [global][1..] == [];
    assert MergeAll(default, [global], merge) == merge(default, global, MergeDepth);
  }

  /** With both files parsed, the local document is merged after, and so over, the global one. */
  lemma LocalMergedOverGlobal<V, E>(
    configDir: Path, workspace: Path,
    read: Path -> ReadResult, parse: Bytes -> Result<V, E>,
    default: V, merge: (V, V, nat) -> V)
    requires read(GlobalFile(configDir)).Read?
    requires parse(read(GlobalFile(configDir)).contents).Success?
    requires read(LocalFile(workspace)).Read?
    requires parse(read(LocalFile(workspace)).contents).Success?
    ensures var global := parse(read(GlobalFile(configDir)).contents).value;
            var local := parse(read(LocalFile(workspace)).contents).value;
            UserLangConfig(true, configDir, workspace, read, parse, default, merge)
              == Success(merge(merge(default, global, MergeDepth), local, MergeDepth))
  {
    CandidatesParsed(true, configDir, workspace, read, parse);
    var global := parse(read(GlobalFile(configDir)).contents).value;
    var local := parse(read(LocalFile(workspace)).contents).value;
    var docs: seq<Result<V, E>> := [Success(global), Success(local)];
    assert ParsedFile(GlobalFile(configDir), read, parse) + ParsedFile(LocalFile(workspace), read, parse) == docs;
    assert Collect(docs).value == [global, local];
    assert [global, local][..1] == [global] && [global][..0] == [];
  }

  /**
   * With no readable global file, a parsed local file is merged directly
   * over the default: the workspace-only configuration.
   */
  lemma LocalOnlyMerged<V, E>(
    configDir: Path, workspace: Path,
    read: Path -> ReadResult, parse: Bytes -> Result<V, E>,
    default: V, merge: (V, V, nat) -> V)
    requires read(GlobalFile(configDir)).ReadFailed?
    requires read(LocalFile(workspace)).Read?
    requires parse(read(LocalFile(workspace)).contents).Success?
    ensures UserLangConfig(true, configDir, workspace, read, parse, default, merge)
         == Success(merge(default, parse(read(LocalFile(workspace)).contents).value, MergeDepth))
  {
    CandidatesParsed(true, configDir, workspace, read, parse);
    var local := parse(read(LocalFile(workspace)).contents).value;
    var docs: seq<Result<V, E>> := [Success(local)];
    assert [] + docs == docs;
    assert Collect(docs).value == [local];
    assert [local][..0] == [];
  }

  /**
   * With local configuration disabled the result does not depend on anything
   * but the global file: the workspace's file is never read.
   */
  lemma {:induction false} LocalFileIgnoredWhenDisabled<V, E>(
    configDir: Path, workspace: Path,
    read1: Path -> ReadResult, read2: Path -> ReadResult, parse: Bytes -> Result<V, E>,
    default: V, merge: (V, V, nat) -> V)
    requires read1(GlobalFile(configDir)) == read2(GlobalFile(configDir))
    ensures UserLangConfig(false, configDir, workspace, read1, parse, default, merge)
         == UserLangConfig(false, configDir, workspace, read2, parse, default, merge)
  {
    CandidatesParsed(false, configDir, workspace, read1, parse);
    CandidatesParsed(false, configDir, workspace, read2, parse);
  }

  /** An unreadable local file is skipped: the result is what it would be without it. */
  lemma {:induction false} UnreadableLocalFileSkipped<V, E>(
    configDir: Path, workspace: Path,
    read: Path -> ReadResult, parse: Bytes -> Result<V, E>,
    default: V, merge: (V, V, nat) -> V)
    requires read(LocalFile(workspace)).ReadFailed?
    ensures UserLangConfig(true, configDir, workspace, read, parse, default, merge)
         == UserLangConfig(false, configDir, workspace, read, parse, default, merge)
  {
    CandidatesParsed(true, configDir, workspace, read, parse);
    CandidatesParsed(false, configDir, workspace, read, parse);
  }
}
