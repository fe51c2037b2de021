# insomnia-documenter: the generator script, modelled in Dafny

`bin/generate.js` turns an Insomnia export into a static documentation site.
It has two pipelines:

- **Single-file pipeline** (`--config`). It copies the bundled site into the
  output directory, copies the export to `insomnia.json` and, when `--logo` is
  given, copies the logo to `logo.png`.
- **YAML pipeline** (`--yaml`, no `--config`). Each `--yaml` argument names a
  group. For every `.yml` file under the group's `.insomnia` directory, the
  file is loaded and its document is retagged: `type` becomes `_type`,
  normalised by `snakeCase`. The documents are collected in
  `{ resources: [...] }` and written to `<group>.json`. A `try`/`catch` around
  each group keeps one group's failure from affecting the others.

The model covers:

- the snake-case normaliser;
- the retagging of one document;
- the per-group loop and the loop over groups;
- the `--yaml` accumulator that commander folds over the arguments;
- the choice of pipeline, exit codes 1 and 127, and the single-file
  pipeline's copies, including the optional logo.

The file system and the libraries the script calls (glob, js-yaml, fs,
mkdirp, copy-dir) are one value of type `Hosts.Host`, which gives their
answers. Paths are taken as already resolved strings.

Files:

- `wrappers.dfy`: `Option` and `Result`.
- `text.dfy`: `join`, `lastIndexOf` and the last piece of a `split`.
- `snake_case.dfy`: `snakeCase` as written, which is the pipeline
  `replace(/\W+/g, ' ')`, `split(/ |\B(?=[A-Z])/)`, `toLowerCase`,
  `join('_')`. It also holds an independent character-by-character reference,
  `Normalized`, and the proof that the two agree, with the properties proved
  about the reference.
- `snake_case_examples.dfy`: the snake-case output for resource-type labels
  such as Insomnia's `RequestGroup` and for spelled-out variants ("Request
  Group", "HTTP Request"). It also covers small inputs that each show one
  rule.
- `documents.dfy`: loaded YAML values and the retag.
- `host.dfy`: the answers of the file system and libraries.
- `aggregate.dfy`: the YAML pipeline. `ProcessGroup` and `GenerateYaml` are
  methods with `while` loops, as the source's `for` loop and `forEach` are.
  Each is proved equal to a specification function, and the properties are
  proved about those functions.
- `cli.dfy`: the `--yaml` accumulator, the mode selection and the
  single-file pipeline.

Characters are classified as JavaScript regular expressions without the `u`
flag classify them. A word character is `[A-Za-z0-9_]`. An uppercase letter
is `[A-Z]`. Every other character, non-ASCII ones included, is a non-word
character.

Four behaviours of the code that a reader might not expect, all modelled as
written:

- `"HTTPRequest"` and `"HTTP Request"` both become `"h_t_t_p_request"`, not
  `"http_request"`. The split happens before every capital that follows a
  word character.
- The group name is not given separately. `parseYaml` derives it from the
  resolved path as everything after the last backslash. On POSIX,
  `path.resolve` returns a path without backslashes, so the name is the whole
  resolved path, such as `/home/u/api`. `path.join(outputPath, "/home/u/api.json")`
  at bin/generate.js:60 then names a file in nested directories. These
  usually do not exist, so the write throws and is caught. In the model, that
  is the host's `writable` answer for `OutputFile` of that name.
- Uncaught exceptions are modelled as `Crashed` rather than as "some
  non-zero code".
- The YAML pipeline always ends with `process.exit()`, which is exit code 0,
  also when every group failed.

## Model

| member | source | states |
|---|---|---|
| `SnakeCasing.SnakeCase` | bin/generate.js:39-45 | No contract; defines snakeCase as the composition of the four steps below, as written. Its properties are the lemmas that follow. |
| `SnakeCasing.ReplaceNonWordRuns` | bin/generate.js:41 | No contract; defines `replace(/\W+/g, ' ')`. `RenderReplaced` states its meaning. |
| `SnakeCasing.SplitFragments` | bin/generate.js:42 | At least one piece, as `split` always returns. The function defines the scan of the `split` at each space and before each capital that follows a word character, and `SplitLowerJoin` states its meaning. |
| `SnakeCasing.LowerCase` | bin/generate.js:43 | Defines `word.toLowerCase()` on the characters that reach it. The ensures unfold the comprehension through `ToLower`, and `ToLower` and `SplitLowerJoin` state its meaning. |
| `SnakeCasing.LowerCaseAll` | bin/generate.js:43 | Defines `.map((word) => word.toLowerCase())`. The ensures unfold the comprehension, and `SplitLowerJoin` states its meaning. |
| `Text.Join` | bin/generate.js:44 | No contract; defines `join('_')`. `Text.JoinCons` gives its step. |
| `Text.LastPiece` | bin/generate.js:11-12 | The last piece of `split(c)`: a suffix of the string that contains no `c`, and is either the whole string or has a `c` right before it. |
| `SnakeCasing.SnakeCaseIsNormalized` | bin/generate.js:39-45 | snakeCase as written equals the character-level reading for every input. In that reading, each maximal run of non-word characters becomes one "_". An uppercase letter becomes its lowercase and gets a "_" in front exactly when a word character precedes it. Every other word character is lowercased. |
| `SnakeCasing.RenderReplaced` | bin/generate.js:41 | After `replace(/\W+/g, ' ')`, reading each space as "_" gives the character-level reading of the original string. |
| `SnakeCasing.SplitLowerJoin` | bin/generate.js:42-44 | Splitting on spaces and before capitals that follow a word character, lowercasing and joining with "_" renders the text character by character. This also holds for JavaScript's rule that an empty match at the start of a piece cuts nothing. |
| `SnakeCasing.ToLower` | bin/generate.js:43 | Lowercasing turns a word character into one of [a-z0-9_]. Each capital becomes the lowercase letter at the same place in the alphabet. Every other character is unchanged. |
| `SnakeCasing.SnakeCaseAlphabet` | bin/generate.js:41-43 | The output of snakeCase consists only of lowercase ASCII letters, digits and "_". |
| `SnakeCasing.SnakeCaseFixedPoint` | bin/generate.js:39-45 | snakeCase(s) == s exactly when s consists only of [a-z0-9_]. |
| `SnakeCasing.SnakeCaseIdempotent` | bin/generate.js:39-45 | snakeCase(snakeCase(s)) == snakeCase(s). |
| `SnakeCasing.NormalizedAppend` | bin/generate.js:41-44 | The reading of x + y is the reading of x followed by the reading of y continued from x's last character, provided no run of non-word characters straddles the cut. |
| `SnakeCasing.SeparatorRun` | bin/generate.js:41-44 | Take a maximal non-empty run of non-word characters between x and y; x ends in a word character (or is empty) and y starts with one (or is empty). The run becomes exactly one "_": snakeCase(x+sep+y) == snakeCase(x) + "_" + snakeCase(y). |
| `SnakeCasing.UpperBoundary` | bin/generate.js:42 | Cutting just before a capital: snakeCase(x+z) == snakeCase(x) + "_" + snakeCase(z) when x ends in a word character, and snakeCase(x) + snakeCase(z) otherwise, including when x is empty. |
| `SnakeCaseExamples.RequestGroupLabel` | bin/generate.js:39-45 | "RequestGroup" becomes "request_group". |
| `SnakeCaseExamples.RequestGroup` | bin/generate.js:39-45 | "Request Group" becomes "request_group". |
| `SnakeCaseExamples.AcronymRequest` | bin/generate.js:39-45 | "HTTPRequest" becomes "h_t_t_p_request". |
| `SnakeCaseExamples.HttpRequest` | bin/generate.js:39-45 | "HTTP Request" becomes "h_t_t_p_request". |
| `SnakeCaseExamples.Acronym` | bin/generate.js:42 | "HTTP" becomes "h_t_t_p". |
| `SnakeCaseExamples.Empty` | bin/generate.js:39-45 | "" becomes "". |
| `SnakeCaseExamples.SeparatorRuns` | bin/generate.js:41 | "a--b" becomes "a_b". |
| `SnakeCaseExamples.LongSeparatorRuns` | bin/generate.js:41 | "a---b   c" becomes "a_b_c". |
| `SnakeCaseExamples.LeadingSpace` | bin/generate.js:41-44 | " a" becomes "_a": a leading separator gives a leading "_". |
| `SnakeCaseExamples.UnderscoreCapital` | bin/generate.js:42 | "a_B" becomes "a__b": "_" is a word character, so a capital after it gets its own "_". |
| `SnakeCaseExamples.DigitCapital` | bin/generate.js:42 | "a1B" becomes "a1_b". |
| `SnakeCaseExamples.Request` | bin/generate.js:39-45 | "Request" becomes "request". |
| `SnakeCaseExamples.Group` | bin/generate.js:39-45 | "Group" becomes "group". |
| `Documents.Retag` | bin/generate.js:55-56 | Retagging succeeds exactly when `type` is present and is a string; otherwise it fails with a TypeError. On success, `type` is gone and `_type` is snakeCase of the old `type`, overwriting any earlier `_type`. Every other key keeps its value, and no other key appears. |
| `Documents.RetagLoaded` | bin/generate.js:54-56 | A loaded value succeeds exactly when it is a mapping with a string `type`; otherwise it fails with a TypeError. For a mapping, the result is exactly `Retag` of its fields. |
| `Documents.RetagTagIsNormal` | bin/generate.js:55 | The new `_type` consists only of [a-z0-9_] and is left unchanged by snakeCase. |
| `Documents.RetagTwiceFails` | bin/generate.js:55-56 | A retagged document has no `type` any more, so retagging it again throws. |
| `YamlPipeline.OutputFile` | bin/generate.js:60 | No contract; defines the name `${key}.json` of the file a group is written to, inside the output directory. |
| `YamlPipeline.GlobPattern` | bin/generate.js:48 | No contract; defines the pattern as the group's path followed by `\.insomnia\**\*.yml`. |
| `YamlPipeline.LoadAndRetag` | bin/generate.js:54-56 | No contract; defines one iteration's body: a file that does not load fails with `LoadFailed` of that file, and a loaded value goes through `RetagLoaded`. |
| `YamlPipeline.ProcessFiles` | bin/generate.js:53-58 | No contract; defines the `for` loop over the matched files, stopping at the first exception. Its properties are the four lemmas that follow. |
| `YamlPipeline.GroupOutput` | bin/generate.js:52-60 | No contract; defines the `try` block of one group: the loop, then the write. `ProcessGroup` and `GroupWritten` state its meaning. |
| `YamlPipeline.YamlOutput` | bin/generate.js:47-64 | No contract; defines the files written: each group whose `try` block completes, mapped to its resources. `GenerateYaml`, `GroupWritten`, `GroupsIsolated` and `FailedGroupDropped` state its meaning. |
| `YamlPipeline.ProcessFilesSuccess` | bin/generate.js:53-58 | A group's loop completes exactly when every matched file loads and retags. |
| `YamlPipeline.ProcessFilesContents` | bin/generate.js:51-58 | When the loop completes, `resources` holds one entry per matched file, in enumeration order. Entry i is the retagged document of file i. |
| `YamlPipeline.ProcessFilesFirstFailure` | bin/generate.js:52-61 | When the loop throws, the exception caught is that of the first failing file, and every file before it succeeded. |
| `YamlPipeline.ProcessFilesStops` | bin/generate.js:53-58 | After the first exception, later files change nothing. |
| `YamlPipeline.ProcessGroup` | bin/generate.js:48-63 | The `try` block of one group, with a `while` loop that mutates each document before pushing it. It returns the group's resources exactly as the specification function `GroupOutput` does: the loop's result, and then a write failure if the write throws. |
| `YamlPipeline.GenerateYaml` | bin/generate.js:47-64 | For any enumeration order of the `yaml` entries, the files written are exactly `YamlOutput`: each group whose `try` block completes, mapped to its resources. So the enumeration order does not matter. |
| `YamlPipeline.GroupWritten` | bin/generate.js:51-60 | `<name>.json` is written exactly when every file of the group loads and retags and the write succeeds. It then holds each file's retagged document in order. |
| `YamlPipeline.GroupsIsolated` | bin/generate.js:52-63 | Whatever one group's files and write do, every other group writes the same thing. |
| `YamlPipeline.FailedGroupDropped` | bin/generate.js:61-63 | A group whose `try` block throws leaves the output as if that group had not been given. |
| `Cli.GroupName` | bin/generate.js:10-12 | The name is a suffix of the resolved path that contains no backslash. Either it is the whole path, or a backslash comes right before it. |
| `Cli.ParseYaml` | bin/generate.js:9-14 | The result has the old keys plus the name. The name maps to the resolved path, and every other key keeps its value. |
| `Cli.CollectYaml` | bin/generate.js:16-21 | No contract; defines commander's fold of `parseYaml` over the `--yaml` arguments from `{}`. `CollectYamlKeys`, `CollectYamlLastWins` and `CollectYamlEmpty` state its meaning. |
| `Cli.CollectYamlKeys` | bin/generate.js:9-20 | After commander's fold from `{}`, a name is a key exactly when some `--yaml` argument has that group name. |
| `Cli.CollectYamlLastWins` | bin/generate.js:13 | For a repeated group name, the last argument with that name wins. |
| `Cli.CollectYamlEmpty` | bin/generate.js:20-25 | The accumulator is empty exactly when no `--yaml` argument was given. |
| `Cli.ModeSelection` | bin/generate.js:25-34 | Without a (truthy) config and without `--yaml`, the usage mode. Without a config and with `--yaml`, the YAML pipeline. With a config, the single-file pipeline. |
| `Cli.Truthy` | bin/generate.js:25-89 | No contract; defines JavaScript truthiness of an optional string option, as used for `config` (lines 25 and 34) and for `logo`/`logoPath` (lines 32 and 89). An absent option and "" are falsy, and every other string is truthy. Every "truthy" in this table means this. |
| `Cli.SelectMode` | bin/generate.js:25-34 | No contract; defines the two tests on `config` and on the keys of `yaml`. `ModeSelection` states its meaning. |
| `Cli.Invoke` | bin/generate.js:23-97 | No contract; defines one run: the usage exit, the YAML pipeline or the single-file pipeline, by mode. `InvokeByMode` and the lemmas after it state its meaning. |
| `Cli.InvokeByMode` | bin/generate.js:25-97 | Without a truthy config and without `--yaml` arguments, the run is `Exited(1)` with nothing copied or written. Without a truthy config but with `--yaml` arguments, it is `Exited(0)`: `YamlOutput` of the accumulated groups is written and nothing is copied. With a truthy config, it is the single-file pipeline `SingleFile` on that config. |
| `Cli.UsageExit` | bin/generate.js:25-28 | `process.exit(1)` (bin/generate.js:27) is reached exactly when neither a truthy config nor any `--yaml` argument is given. |
| `Cli.YamlRun` | bin/generate.js:34-66 | Without a config but with `--yaml`, the run exits with code 0 and writes exactly `YamlOutput` of the accumulated groups. It copies no site, no export and no logo. |
| `Cli.ConfigWins` | bin/generate.js:34 | With a config, the `--yaml` arguments change nothing, and no group file is written. |
| `Cli.SingleFile` | bin/generate.js:73-97 | No group file is written. Exit 127 exactly when the output directory cannot be made. The site is copied exactly when the directory is made and the template copy succeeds. `insomnia.json` is copied exactly when the site was copied and copying the config to `insomnia.json` succeeds, and its content is the config. `logo.png` is copied exactly when `insomnia.json` was, a truthy logo was given and copying it to `logo.png` succeeds, and its content is that logo. Exit 0 exactly when the directory is made, the site and the export are copied, and the logo is copied whenever one is given. Any other run crashes. |
| `Cli.LogoOnlyWhenGiven` | bin/generate.js:89-92 | `logo.png` is written only with a config and a given logo, and as a copy of that logo. It is written whenever both are given, every earlier step succeeds and the logo copy itself succeeds. |
| `Cli.OutputDirExit` | bin/generate.js:73-77 | With a config, exit code 127 exactly when the output directory cannot be created. |

## Left out

- Command-line parsing by commander is taken as done. The model starts from
  the option values and the `--yaml` arguments in order. `path.resolve`,
  `path.join` and `process.cwd()` are also left out: paths are the given
  strings.
- `glob.sync`, `fs.readFileSync` with `js-yaml`, `mkdirp`, `fs.writeFileSync`,
  `copy-dir` and `fs.copyFileSync` are foreign code and I/O. They are the
  answers of `Hosts.Host`. A load that throws is one `None`, without the
  library's message.
- The pattern `GlobPattern` is built as written, but what glob matches for it
  is the host's answer. The model does not capture that on POSIX, backslashes
  in the pattern are escapes. `glob.sync` throwing is left out too: it sits
  outside the `try`, and the model treats glob as total.
- Console output and the caught exception's message are left out. The model
  keeps only which error was caught.
- `JSON.stringify` and the key order of JavaScript objects are left out.
  Documents are maps and the output is the list of documents, not its text.
  The order in which `Object.entries` enumerates keys (integer-like keys
  first) is left out as well. `GenerateYaml` is proved for every
  enumeration order.
- A partly copied site when `copydir.sync` throws halfway is left out. The
  site is copied or not.
- YAML values that are floats, dates or other JavaScript objects are left out.
  `Value` has null, booleans, integers, strings, lists and string-keyed
  mappings. An empty file, which loads as `undefined`, is `Null`.
- Unicode case mapping is left out. Only ASCII is classified, as the
  regular expressions do. `toLowerCase` only ever sees word characters and
  spaces, so ASCII lowercasing is exact there.
- The exit status of a crash is not modelled. Node exits with code 1 on an
  uncaught exception, the same code as the usage message. The model records a
  crash as `Crashed` instead. `Cli.UsageExit` is about reaching
  `process.exit(1)`, not about every run whose status is 1.
