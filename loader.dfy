/**
 * The `!from_yaml` constructor of build-a-bear's YAML loader.  A scalar
 * tagged `!from_yaml` holds two shell-style words, a file name and a dotted
 * key; the constructor loads the named file (relative to the directory of
 * the document being loaded, through a per-loader cache) and returns the
 * value found under the key, or fails.
 *
 * The file system and the YAML parser are abstracted as a map from path to
 * the outcome of loading that file: its document, with any `!from_yaml`
 * references inside it already resolved by the nested loader, or the error
 * that loading raised.
 */
module BuildABear {
  import opened Results
  import Shlex
  import KeyPath
  import opened YamlTree
  import PosixPath

  /** What `yaml.load` makes of a file it can open. */
  datatype LoadOutcome =
    | Loaded(doc: Yaml)
    | LoadFailed(reason: string)  // a parse error, or an error of a reference inside the file

  /** The files that can be opened, by path; `open` fails on any other path. */
  type FileSystem = map<string, LoadOutcome>

  /** The ways a `!from_yaml` directive fails. */
  datatype Failure =
    | TokenizeFailed(lex: Shlex.LexError)         // `ValueError` from `shlex.split`, not converted
    | TwoArgumentsExpected                        // `YAMLError('Two arguments expected to !from_yaml')`
    | CannotOpen(path: string)                    // `IOError` from `open(path)`
    | LoadFailure(reason: string)                 // raised by `yaml.load` of the file, passed on as is
    | KeyNotFound(key: string, filename: string)  // `YAMLError('Key "<key>" not found in <filename>')`
    | NotSubscriptable                            // `TypeError` from indexing a non-mapping, not converted

  /** The two words of a directive. */
  datatype Directive = Directive(filename: string, key: string)

  /** Tokenising the directive and checking that it has exactly two words. */
  function ParseDirective(content: string): Result<Directive, Failure> {
    match Shlex.Split(content)
    case Err(e) => Err(TokenizeFailed(e))
    case Ok(parts) =>
      if |parts| != 2 then Err(TwoArgumentsExpected) else Ok(Directive(parts[0], parts[1]))
  }

  /** `self._cache.get(path)` is truthy: only then is the cached document used. */
  predicate CacheHit(cache: map<string, Yaml>, path: string) {
    path in cache && Truthy(cache[path])
  }

  /** The document a directive naming `path` walks. */
  function Fetch(cache: map<string, Yaml>, files: FileSystem, path: string): Result<Yaml, Failure> {
    if CacheHit(cache, path) then Ok(cache[path])
    else if path !in files then Err(CannotOpen(path))
    else
      match files[path]
      case Loaded(doc) => Ok(doc)
      case LoadFailed(reason) => Err(LoadFailure(reason))
  }

  /**
   * The cache after a directive naming `path`: a miss that loads the file
   * stores its document under `path`; nothing else is ever added, replaced
   * or removed.
   */
  function Store(cache: map<string, Yaml>, files: FileSystem, path: string): (r: map<string, Yaml>)
    ensures cache.Keys <= r.Keys <= cache.Keys + {path}
    ensures forall p :: p in cache && p != path ==> r[p] == cache[p]
    ensures CacheHit(cache, path) || path !in files || files[path].LoadFailed? ==> r == cache
    ensures !CacheHit(cache, path) && path in files && files[path].Loaded? ==> path in r && r[path] == files[path].doc
  {
    if !CacheHit(cache, path) && path in files && files[path].Loaded? then cache[path := files[path].doc]
    else cache
  }

  /** The value under the dotted `key` in `doc`; only a missing key becomes KeyNotFound. */
  function Retrieve(doc: Yaml, key: string, filename: string): Result<Yaml, Failure> {
    match Walk(doc, KeyPath.Segments(key))
    case Ok(v) => Ok(v)
    case Err(MissingKey) => Err(KeyNotFound(key, filename))
    case Err(NotAMapping) => Err(NotSubscriptable)
  }

  /** What `from_yaml` returns for the directive `content`, for a loader rooted at `root` holding `cache`. */
  function Resolve(root: string, cache: map<string, Yaml>, files: FileSystem, content: string): Result<Yaml, Failure> {
    match ParseDirective(content)
    case Err(e) => Err(e)
    case Ok(d) =>
      match Fetch(cache, files, PosixPath.Join(root, d.filename))
      case Err(e) => Err(e)
      case Ok(doc) => Retrieve(doc, d.key, d.filename)
  }

  /** The loader's cache after `from_yaml` on the directive `content`. */
  function ResolveCache(root: string, cache: map<string, Yaml>, files: FileSystem, content: string): map<string, Yaml> {
    match ParseDirective(content)
    case Err(_) => cache
    case Ok(d) => Store(cache, files, PosixPath.Join(root, d.filename))
  }

  /** `from_yaml` on `content` opens the file at `path`. */
  predicate Opens(root: string, cache: map<string, Yaml>, content: string, path: string) {
    && ParseDirective(content).Ok?
    && PosixPath.Join(root, ParseDirective(content).value.filename) == path
    && !CacheHit(cache, path)
  }

  /** Every cached document is what loading its file gives. */
  predicate Agrees(cache: map<string, Yaml>, files: FileSystem) {
    forall p :: p in cache ==> p in files && files[p] == Loaded(cache[p])
  }

  /** A loader: the directory it resolves file names against, and its cache. */
  class Loader {
    const root: string
    var cache: map<string, Yaml>

    /** A loader for the stream named `streamName`, with an empty cache. */
    constructor (streamName: string)
      ensures root == PosixPath.DirName(streamName)
      ensures cache == map[]
    {
      root := PosixPath.DirName(streamName);
      cache := map[];
    }

    /** The `!from_yaml` constructor applied to the scalar `content`. */
    method FromYaml(content: string, files: FileSystem) returns (r: Result<Yaml, Failure>)
      modifies this
      ensures r == Resolve(root, old(cache), files, content)
      ensures cache == ResolveCache(root, old(cache), files, content)
    {
      var parts := Shlex.Split(content);
      if parts.Err? {
        return Err(TokenizeFailed(parts.error));
      }
      if |parts.value| != 2 {
        return Err(TwoArgumentsExpected);
      }
      var filename, key := parts.value[0], parts.value[1];

      var path := PosixPath.Join(root, filename);

      var doc: Yaml;
      if CacheHit(cache, path) {
        doc := cache[path];
      } else {
        if path !in files {
          return Err(CannotOpen(path));
        }
        match files[path]
        case LoadFailed(reason) =>
          return Err(LoadFailure(reason));
        case Loaded(loaded) =>
          doc := loaded;
          cache := cache[path := doc];
      }

      var pieces := KeyPath.Split(key);
      ghost var segs := KeyPath.Segments(key);
      var cur := doc;
      var i := 0;
      while i < |pieces|
        invariant 0 <= i <= |pieces| == |segs|
        invariant Walk(doc, segs) == Walk(cur, segs[i..])
      {
        var k := KeyPath.Unescape(pieces[i]);
        assert segs[i..][0] == k && segs[i..][1..] == segs[i + 1..];
        match cur {
          case Map(entries) =>
            if Str(k) !in entries {
              return Err(KeyNotFound(key, filename));
            }
            cur := entries[Str(k)];
          case _ =>
            return Err(NotSubscriptable);
        }
        i := i + 1;
      }
      return Ok(cur);
    }
  }

  // ---------------------------------------------------------------------
  // Tokenising and the word count

  /**
   * A directive of words written bare or in double quotes is accepted
   * exactly when it has two words, the file name first and the key second;
   * any other number of words is TwoArgumentsExpected.
   */
  lemma {:induction false} DirectiveWordCount(ts: seq<string>, ws: seq<string>)
    requires Shlex.RendersAll(ts, ws)
    ensures ParseDirective(Shlex.Unwords(ts)) ==
      if |ws| == 2 then Ok(Directive(ws[0], ws[1])) else Err(TwoArgumentsExpected)
  {
    Shlex.SplitUnwords(ts, ws);
  }

  /** The common unquoted form: two plain words are the file name and the key. */
  lemma PlainDirective(filename: string, key: string)
    requires Shlex.IsPlain(filename) && Shlex.IsPlain(key)
    ensures ParseDirective(filename + " " + key) == Ok(Directive(filename, key))
  {
    DirectiveWordCount([filename, key], [filename, key]);
  }

  /** Any two words, each written in double quotes, are the file name and the key. */
  lemma QuotedDirective(filename: string, key: string)
    ensures ParseDirective(Shlex.Unwords([Shlex.Quote(filename), Shlex.Quote(key)])) == Ok(Directive(filename, key))
  {
    DirectiveWordCount([Shlex.Quote(filename), Shlex.Quote(key)], [filename, key]);
  }

  /** A quote left open fails with the tokeniser's own error, not with TwoArgumentsExpected. */
  lemma {:induction false} UnclosedQuoteNotConverted(ts: seq<string>, ws: seq<string>, w: string)
    requires Shlex.RendersAll(ts, ws)
    ensures ParseDirective(Shlex.Unwords(ts + ["\"" + Shlex.EscapeDouble(w)]))
         == Err(TokenizeFailed(Shlex.NoClosingQuotation))
  {
    Shlex.SplitUnclosedQuote(ts, ws, w);
  }

  // ---------------------------------------------------------------------
  // The walk

  /**
   * A directive naming a loadable file and the formatted key path `segs`
   * returns exactly the value stored under `segs`, and caches the file's
   * document under the joined path.
   */
  lemma {:induction false} ResolveFindsStoredValue(
    root: string, cache: map<string, Yaml>, files: FileSystem,
    filename: string, segs: seq<string>, doc: Yaml, v: Yaml)
    requires |segs| >= 1
    requires forall i :: 0 <= i < |segs| - 1 ==> !KeyPath.EndsWithBackslash(segs[i])
    requires !CacheHit(cache, PosixPath.Join(root, filename))
    requires PosixPath.Join(root, filename) in files
    requires files[PosixPath.Join(root, filename)] == Loaded(doc)
    requires Walk(doc, segs) == Ok(v)
    ensures var content := Shlex.Unwords([Shlex.Quote(filename), Shlex.Quote(KeyPath.FormatKey(segs))]);
      && Resolve(root, cache, files, content) == Ok(v)
      && ResolveCache(root, cache, files, content) == cache[PosixPath.Join(root, filename) := doc]
  {
    var key := KeyPath.FormatKey(segs);
    QuotedDirective(filename, key);
    assert Fetch(cache, files, PosixPath.Join(root, filename)) == Ok(doc);
    KeyPath.SegmentsFormatKey(segs);
    assert Retrieve(doc, key, filename) == Ok(v);
  }

  /**
   * Once the directive is parsed and the document fetched, the result is
   * KeyNotFound naming the whole key and the file name exactly when some
   * lookup reaches a mapping that lacks its key, and the unconverted
   * NotSubscriptable exactly when some lookup reaches a scalar or sequence.
   */
  lemma ResolveFailures(root: string, cache: map<string, Yaml>, files: FileSystem, content: string, doc: Yaml)
    requires ParseDirective(content).Ok?
    requires Fetch(cache, files, PosixPath.Join(root, ParseDirective(content).value.filename)) == Ok(doc)
    ensures var d := ParseDirective(content).value;
      && (Resolve(root, cache, files, content) == Err(KeyNotFound(d.key, d.filename))
          <==> exists i :: FailsAt(doc, KeyPath.Segments(d.key), i, MissingKey))
      && (Resolve(root, cache, files, content) == Err(NotSubscriptable)
          <==> exists i :: FailsAt(doc, KeyPath.Segments(d.key), i, NotAMapping))
  {
    var d := ParseDirective(content).value;
    assert Resolve(root, cache, files, content) == Retrieve(doc, d.key, d.filename);
    RetrieveFailures(doc, d.key, d.filename);
  }

  lemma RetrieveFailures(doc: Yaml, key: string, filename: string)
    ensures Retrieve(doc, key, filename) == Err(KeyNotFound(key, filename))
        <==> exists i :: FailsAt(doc, KeyPath.Segments(key), i, MissingKey)
    ensures Retrieve(doc, key, filename) == Err(NotSubscriptable)
        <==> exists i :: FailsAt(doc, KeyPath.Segments(key), i, NotAMapping)
  {
    var segs := KeyPath.Segments(key);
    WalkFailure(doc, segs, MissingKey);
    WalkFailure(doc, segs, NotAMapping);
  }

  /** The key and file name a KeyNotFound reports are the directive's own two words. */
  lemma KeyNotFoundNamesDirective(root: string, cache: map<string, Yaml>, files: FileSystem, content: string, key: string, filename: string)
    requires Resolve(root, cache, files, content) == Err(KeyNotFound(key, filename))
    ensures Shlex.Split(content) == Ok([filename, key])
  {
    var d := ParseDirective(content).value;
    var parts := Shlex.Split(content).value;
    assert parts == [parts[0], parts[1]];
  }

  // ---------------------------------------------------------------------
  // The cache

  /** A truthy cached document is used without opening the file, and the cache stays as it was. */
  lemma HitDoesNotOpen(root: string, cache: map<string, Yaml>, files1: FileSystem, files2: FileSystem, content: string)
    requires ParseDirective(content).Ok?
    requires CacheHit(cache, PosixPath.Join(root, ParseDirective(content).value.filename))
    ensures Resolve(root, cache, files1, content) == Resolve(root, cache, files2, content)
    ensures var d := ParseDirective(content).value;
      Resolve(root, cache, files1, content) == Retrieve(cache[PosixPath.Join(root, d.filename)], d.key, d.filename)
    ensures ResolveCache(root, cache, files1, content) == cache
  {
  }

  /** A file that cannot be opened fails the directive before anything is cached. */
  lemma MissingFileNotCached(root: string, cache: map<string, Yaml>, files: FileSystem, content: string)
    requires ParseDirective(content).Ok?
    requires Opens(root, cache, content, PosixPath.Join(root, ParseDirective(content).value.filename))
    requires PosixPath.Join(root, ParseDirective(content).value.filename) !in files
    ensures Resolve(root, cache, files, content) == Err(CannotOpen(PosixPath.Join(root, ParseDirective(content).value.filename)))
    ensures ResolveCache(root, cache, files, content) == cache
  {
  }

  /**
   * After one directive has loaded a file, a second directive naming the same
   * path opens it again exactly when its document is falsy (null, false, 0,
   * an empty string, sequence or mapping); either way both see the same
   * document.
   */
  lemma SecondReferenceReloadsOnlyFalsy(root: string, cache: map<string, Yaml>, files: FileSystem, first: string, second: string, path: string)
    requires Opens(root, cache, first, path)
    requires ParseDirective(second).Ok? && PosixPath.Join(root, ParseDirective(second).value.filename) == path
    requires path in files && files[path].Loaded?
    ensures var after := ResolveCache(root, cache, files, first);
      && (Opens(root, after, second, path) <==> !Truthy(files[path].doc))
      && Fetch(after, files, path) == Fetch(cache, files, path) == Ok(files[path].doc)
  {
  }

  /**
   * A cache holding only what the files give is invisible: the directive
   * resolves as it would with an empty cache, and the cache still holds only
   * what the files give.
   */
  lemma CacheIsTransparent(root: string, cache: map<string, Yaml>, files: FileSystem, content: string)
    requires Agrees(cache, files)
    ensures Resolve(root, cache, files, content) == Resolve(root, map[], files, content)
    ensures Agrees(ResolveCache(root, cache, files, content), files)
  {
  }

  // ---------------------------------------------------------------------
  // A worked example

  /**
   * A directive of two plain words, resolved by a loader rooted at the
   * current directory with an empty cache, walks the document of the file
   * named by the first word along the segments of the second.
   */
  lemma PlainResolve(files: FileSystem, filename: string, key: string, segs: seq<string>, doc: Yaml)
    requires Shlex.IsPlain(filename) && Shlex.IsPlain(key)
    requires KeyPath.Segments(key) == segs
    requires filename in files && files[filename] == Loaded(doc)
    ensures Resolve("", map[], files, filename + " " + key) ==
      match Walk(doc, segs)
      case Ok(v) => Ok(v)
      case Err(MissingKey) => Err(KeyNotFound(key, filename))
      case Err(NotAMapping) => Err(NotSubscriptable)
  {
    PlainDirective(filename, key);
    assert PosixPath.Join("", filename) == filename;
  }

  /** The words of the example directives are plain. */
  lemma ExampleWordsPlain()
    ensures Shlex.IsPlain("deps.yml")
    ensures Shlex.IsPlain("tools.image") && Shlex.IsPlain("missing.key")
  {
  }

  /**
   * `base.yml` holds `image: !from_yaml deps.yml tools.image` and `deps.yml`
   * holds `tools: {image: "builder:1.0"}`: a loader built on `base.yml`
   * resolves the reference to `builder:1.0`.
   */
  lemma BaseAndDepsFound(files: FileSystem, image: Yaml, stream: string, filename: string, key: string)
    requires image == Leaf(Str("builder:1.0"))
    requires files == map["deps.yml" := Loaded(Map(map[Str("tools") := Map(map[Str("image") := image])]))]
    requires stream == "base.yml" && filename == "deps.yml" && key == "tools.image"
    ensures Resolve(PosixPath.DirName(stream), map[], files, filename + " " + key) == Ok(image)
  {
    ExampleRoot(stream);
    ExampleWordsPlain();
    assert key == "tools" + "." + "image";
    KeyPath.TwoSegments("tools", "image");
    var doc := files[filename].doc;
    PlainResolve(files, filename, key, ["tools", "image"], doc);
    assert Walk(doc, ["tools", "image"]) == Ok(image);
  }

  /** With the same files, `deps.yml missing.key` fails naming that key and that file. */
  lemma BaseAndDepsMissing(files: FileSystem, stream: string, filename: string, key: string)
    requires files == map["deps.yml" := Loaded(Map(map[Str("tools") := Map(map[Str("image") := Leaf(Str("builder:1.0"))])]))]
    requires stream == "base.yml" && filename == "deps.yml" && key == "missing.key"
    ensures Resolve(PosixPath.DirName(stream), map[], files, filename + " " + key) == Err(KeyNotFound(key, filename))
  {
    ExampleRoot(stream);
    ExampleWordsPlain();
    assert key == "missing" + "." + "key";
    KeyPath.TwoSegments("missing", "key");
    var doc := files[filename].doc;
    PlainResolve(files, filename, key, ["missing", "key"], doc);
    assert Walk(doc, ["missing", "key"]) == Err(MissingKey);
  }

  /** A loader built on `base.yml` resolves file names against the current directory. */
  lemma ExampleRoot(stream: string)
    requires stream == "base.yml"
    ensures PosixPath.DirName(stream) == ""
  {
    PosixPath.DirNameOfJoin("", stream);
  }

}
