# build-a-bear `!from_yaml` in Dafny

build-a-bear reads its configuration with a YAML loader that adds one tag,
`!from_yaml`. A scalar tagged `!from_yaml filename key` stands for the value
found under the dotted `key` in another YAML file. The loader:

1. splits the scalar into shell-style words (`shlex.split`, POSIX rules) and
   insists on exactly two of them;
2. joins the file name onto the directory of the stream being loaded
   (`os.path.join`, with the root taken from `os.path.split(stream.name)[0]`);
3. takes the document from its own cache when the cached value is truthy,
   and otherwise opens and loads the file with a fresh loader of the same
   class, storing the result in the cache;
4. splits the key at every `.` not preceded by a backslash, turns each `\.`
   back into `.`, and looks the pieces up one after another;
5. reports a missing key as `Key "<key>" not found in <filename>`.

The model has six modules:

- `Results`: the `Result` datatype.
- `Shlex`: `shlex.split` as a character-by-character state machine, with
  its two errors.
- `KeyPath`: the look-behind split of the key, the unescaping of each piece,
  and reference definitions (join with dots, escape dots) to prove them
  against.
- `YamlTree`: loaded documents, Python truthiness, and the walk along the
  key path.
- `PosixPath`: `os.path.join` and the head of `os.path.split`.
- `BuildABear`: the pure specification of one directive (`Resolve`, and
  `ResolveCache` for the cache afterwards), plus the class `Loader`. Its
  `FromYaml` method is written imperatively, like the source, and is proved
  equal to that specification.

The file system and the YAML parser are represented by a `FileSystem`: a map
from path to the outcome of loading that file. The outcome is either the
loaded document or the reason loading failed. Any `!from_yaml` references in
that file have already been resolved by the nested loader. A path that is
not in the map cannot be opened.

What the code does, and the model with it:

- A nested file is loaded by a new loader built on that file's stream. Its
  references are therefore resolved against its own directory, with its own
  empty cache. There is no root or cache shared across files; each `Loader`
  has its own `root` and `cache`.
- The cache is consulted with a truth test (`if not doc`). A file whose
  document is falsy (null, `false`, `0`, `0.0`, `""`, `[]`, `{}`) is opened
  again at every reference, and its cache entry is overwritten.
- Only `KeyError` becomes the "not found" error. Indexing a scalar or a
  sequence with a string raises `TypeError`, which passes through
  unconverted (`NotSubscriptable`).
- A tokenising error from `shlex.split` (`ValueError`) also passes through
  unconverted (`TokenizeFailed`).

## Model

| member | source | states |
|---|---|---|
| BuildABear.ParseDirective | build_a_bear.py:36-42 | the definition of tokenising the directive and checking for two words; specified by `DirectiveWordCount`, `PlainDirective`, `QuotedDirective` and `UnclosedQuoteNotConverted` |
| BuildABear.CacheHit | build_a_bear.py:48-49 | the definition of the truth test on the cached value; specified by `HitDoesNotOpen` and `SecondReferenceReloadsOnlyFalsy`, with `YamlTree.FalsyDocuments` listing the values it rejects |
| BuildABear.Fetch | build_a_bear.py:48-51 | the definition of taking the document from the cache or loading the file; specified by `HitDoesNotOpen`, `MissingFileNotCached` and `SecondReferenceReloadsOnlyFalsy` |
| BuildABear.Retrieve | build_a_bear.py:55-63 | the definition of the key walk and its error mapping; specified by `RetrieveFailures`, `ResolveFindsStoredValue` and `PlainResolve` |
| BuildABear.Resolve | build_a_bear.py:32-63 | the definition of what one directive returns; specified by `Loader.FromYaml`, `ResolveFailures`, `ResolveFindsStoredValue`, `HitDoesNotOpen`, `MissingFileNotCached`, `CacheIsTransparent` and `KeyNotFoundNamesDirective` |
| BuildABear.ResolveCache | build_a_bear.py:48-52 | the definition of the cache after one directive; specified by `Loader.FromYaml`, `Store`, `ResolveFindsStoredValue`, `HitDoesNotOpen`, `MissingFileNotCached` and `CacheIsTransparent` |
| BuildABear.Loader.constructor | build_a_bear.py:11-13 | a new loader's root is the directory part of the stream name and its cache is empty |
| BuildABear.Loader.FromYaml | build_a_bear.py:16-63 | the `!from_yaml` constructor, step by step as written, returns exactly what `Resolve` specifies and leaves exactly the cache `ResolveCache` specifies |
| BuildABear.Store | build_a_bear.py:48-52 | the cache is insert-only: no key is removed, no other path's entry changes, a hit or a failed open leaves it as it was, and a miss that loads stores the loaded document |
| BuildABear.DirectiveWordCount | build_a_bear.py:35-42 | words written bare or double-quoted are accepted exactly when there are two, as file name then key; any other count is TwoArgumentsExpected |
| BuildABear.PlainDirective | build_a_bear.py:36-42 | two plain words separated by a space are the file name and the key |
| BuildABear.QuotedDirective | build_a_bear.py:36-42 | any two words written in double quotes, spaces included, are the file name and the key |
| BuildABear.UnclosedQuoteNotConverted | build_a_bear.py:35-38 | an unclosed double quote fails with the tokeniser's own NoClosingQuotation, not with the arity error |
| BuildABear.ResolveFindsStoredValue | build_a_bear.py:42-63 | on a cache miss, a quoted file name and a formatted key path over a loadable file return exactly the value stored under that path, and cache the file's document under the joined path |
| BuildABear.ResolveFailures | build_a_bear.py:55-62 | KeyNotFound naming the whole key and the file name happens exactly when some lookup meets a mapping without its key; NotSubscriptable exactly when some lookup meets a non-mapping |
| BuildABear.RetrieveFailures | build_a_bear.py:55-62 | on a fetched document, KeyNotFound happens exactly when some lookup meets a mapping without its key, and NotSubscriptable exactly when some lookup meets a non-mapping |
| BuildABear.KeyNotFoundNamesDirective | build_a_bear.py:42-62 | the key and file name in a KeyNotFound are the directive's two words, in order |
| BuildABear.HitDoesNotOpen | build_a_bear.py:48-49 | with a truthy cached document, that cached document is walked: the result is the lookup of the key in it, it does not depend on the files, and the cache is unchanged |
| BuildABear.MissingFileNotCached | build_a_bear.py:50 | a file that cannot be opened fails with CannotOpen of the joined path, and nothing is cached |
| BuildABear.SecondReferenceReloadsOnlyFalsy | build_a_bear.py:48-52 | after one directive loads a file, a second directive naming the same path opens it again exactly when its document is falsy; both see the same document |
| BuildABear.CacheIsTransparent | build_a_bear.py:48-52 | a cache holding only what the files give changes no result, and stays that way |
| BuildABear.PlainResolve | build_a_bear.py:36-63 | a plain two-word directive at the current directory yields the walk of the named file's document along the key's segments, with only KeyError mapped to KeyNotFound |
| BuildABear.ExampleWordsPlain | build_a_bear.py:36 | `deps.yml`, `tools.image` and `missing.key` are plain words that split without quoting |
| BuildABear.ExampleRoot | build_a_bear.py:12 | a loader built on `base.yml` has the empty root |
| BuildABear.BaseAndDepsFound | build_a_bear.py:55-63 | `deps.yml tools.image` over `tools: {image: builder:1.0}` gives `builder:1.0` |
| BuildABear.BaseAndDepsMissing | build_a_bear.py:61-62 | `deps.yml missing.key` over the same file fails with KeyNotFound naming `missing.key` and `deps.yml` |
| Shlex.Lex | build_a_bear.py:36 | the definition of the POSIX `shlex` state machine; specified by `LexEscapedDouble`, `LexUnclosedDouble`, `LexPlainChars` and `LexRendered` |
| Shlex.Split | build_a_bear.py:36 | the definition of `shlex.split`; specified by `SplitUnwords`, `SplitUnclosedQuote` and `QuotedPair` |
| Shlex.SplitUnwords | build_a_bear.py:34-36 | words written bare or in double quotes, separated by single spaces, split back into exactly those words |
| Shlex.SplitUnclosedQuote | build_a_bear.py:36 | a double quote left open after any words fails the whole split with NoClosingQuotation |
| Shlex.QuotedPair | build_a_bear.py:28-36 | two double-quoted words, as in `"another file.yml" "foo bar.snap crackle.pop"`, split into those two words with their spaces and dots |
| Shlex.LexEscapedDouble | build_a_bear.py:36 | inside double quotes, an escaped word is read back exactly, up to its closing quote |
| Shlex.LexUnclosedDouble | build_a_bear.py:36 | escaped content inside double quotes running to the end of input is never closed |
| Shlex.LexPlainChars | build_a_bear.py:36 | characters other than whitespace, quotes and backslash extend the current word unchanged |
| Shlex.LexRendered | build_a_bear.py:36 | reading a bare or double-quoted rendering of a word leaves the lexer inside that word |
| Shlex.EscapeDoubleIdentity | build_a_bear.py:36 | a word without `"` or `\` needs no escapes inside double quotes |
| KeyPath.Split | build_a_bear.py:58 | the definition of the look-behind split; specified by `SplitCount`, `SplitJoin`, `SplitWellFormed` and `JoinSplit` |
| KeyPath.Unescape | build_a_bear.py:59-60 | the definition of replacing `\.` by `.`; specified by `UnescapeEscape` |
| KeyPath.Segments | build_a_bear.py:57-60 | the definition of the keys looked up, in order; specified by `SegmentsFormatKey`, `SegmentsPlainKey`, `TwoSegments` and `SegmentsExamples` |
| KeyPath.SplitFrom | build_a_bear.py:58 | the split always yields at least one piece |
| KeyPath.SplitCount | build_a_bear.py:58 | the key splits into one more piece than it has dots not preceded by a backslash |
| KeyPath.SplitFromCount | build_a_bear.py:58 | from any position, the number of pieces is one more than the separators still ahead |
| KeyPath.SplitJoin | build_a_bear.py:58 | joining the pieces with dots gives the key back |
| KeyPath.SplitFromJoin | build_a_bear.py:58 | the pieces from any position join back into the rest of the key |
| KeyPath.SeparatorShift | build_a_bear.py:58 | in a suffix not starting after a backslash, the separators are those of the whole key |
| KeyPath.SplitWellFormed | build_a_bear.py:58 | no piece contains a separator and no piece but the last ends with a backslash |
| KeyPath.SplitFromWellFormed | build_a_bear.py:58 | the same shape holds from any position that starts a piece |
| KeyPath.SplitFromShift | build_a_bear.py:58 | splitting resumed inside the key splits as the suffix would alone |
| KeyPath.SplitFromSingle | build_a_bear.py:58 | a piece without separators splits into itself |
| KeyPath.SplitFromFirst | build_a_bear.py:58 | a well-formed first piece followed by a dot is split off whole |
| KeyPath.JoinSplit | build_a_bear.py:58 | on well-formed pieces the split undoes joining with dots |
| KeyPath.EscapeFacts | build_a_bear.py:59-60 | escaping keeps emptiness and a final backslash, and never starts with a dot |
| KeyPath.UnescapeEscape | build_a_bear.py:59-60 | the `\.` replacement undoes writing dots as `\.` |
| KeyPath.EscapeNoSeparator | build_a_bear.py:58-60 | an escaped segment has no separator of its own |
| KeyPath.SegmentsFormatKey | build_a_bear.py:57-60 | segments whose non-last members do not end in a backslash are recovered from their escaped, dot-joined key |
| KeyPath.SegmentsPlainKey | build_a_bear.py:57-60 | a key without backslashes names exactly its dot-separated words |
| KeyPath.TwoSegments | build_a_bear.py:57-60 | `a.b` without further dots or backslashes names `a` then `b` |
| KeyPath.EscapeIdentity | build_a_bear.py:59-60 | escaping changes nothing without dots |
| KeyPath.SegmentsExamples | build_a_bear.py:57-60 | `a.b.c` names `a`, `b`, `c`; `a\.b.c` names `a.b` then `c` |
| YamlTree.Truthy | build_a_bear.py:49 | the definition of Python truth on documents; specified by `FalsyDocuments` |
| YamlTree.Subscript | build_a_bear.py:60 | the definition of `cur[k]` with its KeyError and TypeError cases; specified by `WalkLast` and `WalkFailure` |
| YamlTree.Walk | build_a_bear.py:56-60 | the definition of the lookup loop; specified by `WalkAppend`, `WalkLast`, `WalkNest`, `WalkFailure` and `WalkFailureWitness` |
| YamlTree.FalsyDocuments | build_a_bear.py:49 | a document is falsy exactly when it is one of null, false, 0, 0.0, "", [] or {} |
| YamlTree.WalkAppend | build_a_bear.py:56-60 | walking a path in two parts is walking it whole; a failure in the first part ends the walk |
| YamlTree.WalkLast | build_a_bear.py:58-60 | one more key after a successful walk is a lookup in the mapping reached |
| YamlTree.WalkNest | build_a_bear.py:56-60 | the walk returns exactly the value nested under the path |
| YamlTree.WalkFailure | build_a_bear.py:56-62 | the walk fails with an error exactly when some lookup along the path is reached and fails with it |
| YamlTree.WalkFailureWitness | build_a_bear.py:56-62 | a failed walk names the lookup that failed |
| PosixPath.DirName | build_a_bear.py:12 | the definition of `os.path.split(p)[0]`; specified by `DirNameOfJoin` and `DirNamePrefix`, over `AfterLastSlash` and `TrimSlashes` |
| PosixPath.Join | build_a_bear.py:45 | an absolute name replaces the root; otherwise the root is kept as a prefix; the name always ends the result, and a `/` is inserted between them exactly when the root is non-empty and does not already end in `/` |
| PosixPath.AfterLastSlash | build_a_bear.py:12 | the cut lies just after the last `/`, and no `/` follows it |
| PosixPath.TrimSlashes | build_a_bear.py:12 | only trailing slashes are removed, and all of them |
| PosixPath.DirNameOfJoin | build_a_bear.py:12-45 | the root of a loader built on `join(dir, name)` is `dir`, for a slash-free name and a dir not ending in `/` |
| PosixPath.DirNamePrefix | build_a_bear.py:12 | the root is a prefix of the stream name |

## Left out

- YAML parsing: documents are given already loaded. Timestamps, binary
  values, sets and ordered maps are not represented, and floats are reals,
  without NaN or infinities.
- The nested load is not modelled as a recursive call. It is the outcome
  stored in the `FileSystem`, so reference cycles between files are not
  modelled either; in the source they exhaust the call stack.
- Opening and closing files, and file contents changing between two reads,
  are not modelled.
- The `UnicodeEncodeError` branch (build_a_bear.py:37-38) is left out. It
  can only arise under Python 2's `shlex`, and strings here are sequences of
  characters.
- The text of error messages is left out. Each error is a constructor
  carrying the values its message mentions.
- `construct_scalar` and the registration of the constructor
  (build_a_bear.py:32, 65) are left out. They belong to the YAML library.
- The command-line code after build_a_bear.py:65 (`read_yaml`, image
  name reading, argument parsing) is not part of this model.
