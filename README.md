# translations-utils, modelled in Dafny

translations-utils ships two command-line tools that edit per-language JSON
translation catalogs (`en.json`, `de.json`, ...):

- **copy-translations** asks for a key path in the first source catalog and
  a destination key path in the first destination catalog. For every
  language in `--langs`, it then copies the value at the source path of that
  language's source catalog to the destination path of that language's
  destination catalog.
- **add-translation** asks for a key path (existing or newly typed) and a
  text, then sets that same text at that path in every language's catalog.

Both tools share one core, and this project models it:

- the path resolver `getValue` / `setValue`;
- the suggestion filter of the key prompt;
- the key navigator `keysQuestion`;
- the `write` loop over the catalog files;
- the mapping from the `--langs` list to file names;
- each tool's main flow.

Modules:

- `Catalog` (catalog.dfy) holds the data model.
  - A catalog node is a `Value`: `Absent` (JavaScript `undefined`), `Leaf(text)`, or `Obj(keys, fields)`.
  - `keys` is the `Object.keys` property order and `fields` is the property map.
  - `Disk` maps a `FilePath(dir, name)` to the catalog that `require` loads from it. Two paths that are equal stand for one cached object.
  - An `Outcome` is the disk after a run plus the error that ended it, if any. Nothing is rolled back.
- `PathResolver` (path_resolver.dfy) holds `GetValue` and `SetValue`.
  - JavaScript updates the catalog object in place. Here `SetValue` returns the catalog as it stands afterwards.
  - A `TypeError` is returned where JavaScript would throw one.
- `KeyFilter` (key_filter.dfy) is the `source` callback of the autocomplete prompt.
- `KeyNavigator` (key_navigator.dfy) is `keysQuestion`.
  - The user is a script of `Answer(typed, pick)` values: the text typed, then the index of the suggestion chosen.
  - `KeysQuestion` is the recursive definition. `Navigate` is the loop over `(current value, keys so far)`, proved equal to it.
- `Languages` (languages.dfy) is `langs.split(",").map(lang => lang + ".json")`.
- `CopyTranslations` (copy_translations.dfy) and `AddTranslation` (add_translation.dfy) each hold:
  - the `write` loop as a function (`CopyAll`, `AddAll`) and as a method with a loop (`Write`);
  - the whole command (`CopyCommand`, `AddCommand`, `Run`).

Points where the model follows the code in bin/copy-translations.js and
bin/add-translation.js:

- **Empty key path.**
  - It would be natural to read the value at an empty path as the root.
  - The code destructures `[key, ...keys]`, so an empty path reads and assigns the property named `"undefined"`. The model does the same (`PathResolver.Effective`).
  - The navigator returns an empty path only when the first catalog is not an object.
- **Strings.** Indexing a string leaf by a key gives `undefined`. Assigning a property of a string leaf is silently ignored, as in non-strict CommonJS code.
- **New properties** go last in the property order.
- **Same file as source and destination.**
  - `--from` and `--to` may name the same directory. Then `require` returns one shared object, and a copy step sees the earlier steps' writes.
  - Copying an object into itself or into one of its descendants makes the catalog circular. `JSON.stringify` then throws before the file is written: `CopyTranslations.MakesCycle` and the `CircularStructure` error.
- **Confirmation.** Both tools ask for a confirmation and never read the answer. `Run` takes it as a parameter, and its result does not depend on it.
- **`getValue` has no side effects** by construction: it is a function.

## Model

| member | source | states |
|---|---|---|
| PathResolver.GetValueSteps | bin/copy-translations.js:15-21 | a one-key path reads exactly `object[key]` (a TypeError on `undefined`, `undefined` for a string or a missing property); each further key reads one level below what the first key read |
| PathResolver.GetValue | bin/copy-translations.js:15-21 | reading a path either throws a TypeError or yields the node reached by following each key in turn (the key "undefined" for an empty path) |
| PathResolver.GetValueFails | bin/copy-translations.js:15-21 | reading a non-empty path throws exactly when the root or some node on the way is `undefined` |
| PathResolver.EmptyPathReadsUndefined | bin/copy-translations.js:15-17 | an empty path reads and assigns the property named "undefined" |
| PathResolver.SetValue | bin/copy-translations.js:22-29 | setting throws only a TypeError, always throws on `undefined`, leaves a string unchanged, and on an object keeps every existing property name and property-order entry |
| PathResolver.SetValueFailsLikeGetValue | bin/add-translation.js:15-22 | setting throws exactly when reading the same path throws, so no intermediate container is ever created |
| PathResolver.SetThenGet | bin/copy-translations.js:22-29 | when every container along a non-empty path is an object, setting succeeds and reading the path back gives the value set |
| PathResolver.SetValueOffPath | bin/copy-translations.js:22-29 | every node whose path is not a prefix or an extension of the set path, siblings included, is unchanged |
| PathResolver.SetValueBelow | bin/copy-translations.js:22-29 | what lies at or below the set path afterwards is the assigned value's own content |
| PathResolver.SetValueContainers | bin/add-translation.js:15-22 | each container on the path stays an object and gains exactly the next key; that key is appended to the property order only when it was missing, so the final key is created when absent and overwritten in place when present; every other property of that container is unchanged |
| PathResolver.SetValueIgnoredOnLeaf | bin/copy-translations.js:22-25 | assigning below a string leaf leaves the catalog unchanged |
| PathResolver.SetValueIdempotent | bin/add-translation.js:15-22 | setting the same value at the same path twice is the same as setting it once |
| PathResolver.SetValuePreservesWellFormed | bin/add-translation.js:15-22 | setting a parsed-JSON value into a parsed-JSON catalog keeps it one: property names distinct and matching the property map, and no `undefined` property |
| KeyFilter.Filter | bin/copy-translations.js:58-64 | the kept keys are exactly the keys that match, never more than were given |
| KeyFilter.FilterAppend | bin/copy-translations.js:58-64 | filtering keeps the relative order of the keys |
| KeyFilter.FilterSingle | bin/copy-translations.js:58-64 | one key is kept exactly when it starts with the input, or the input is empty |
| KeyFilter.FilterNoInput | bin/copy-translations.js:59-61 | with no input every key is kept, in order |
| KeyFilter.Candidates | bin/copy-translations.js:57-67 | suggestions are keys of the level, or the typed text in allow-new mode; they are the filtered keys when one matches, otherwise the typed text alone (allow-new) or nothing |
| KeyFilter.NoInputSuggestsAll | bin/copy-translations.js:57-67 | with no input every key of a non-empty level is suggested, in property order |
| KeyFilter.FilterExample | bin/add-translation.js:46-56 | typing "al" over alpha, beta, alphabet suggests alpha then alphabet, in either mode |
| KeyFilter.NewKeyExample | bin/add-translation.js:55 | typing "newKey" that matches nothing suggests only "newKey" in allow-new mode and nothing otherwise |
| KeyNavigator.KeysQuestion | bin/copy-translations.js:46-71 | navigation fails only by the prompt being abandoned; a result extends the keys accumulated so far by at most one key per answer |
| KeyNavigator.Navigate | bin/copy-translations.js:46-71 | the loop returns what the recursive navigator returns; its path has at most one key per answer, passes through objects only and ends at a non-object |
| KeyNavigator.KeysQuestionAccumulates | bin/copy-translations.js:70 | starting with keys already chosen only prefixes them to the path chosen from an empty start |
| KeyNavigator.KeysQuestionPath | bin/copy-translations.js:47-49 | the returned path has at most as many keys as answers, every prefix of it reaches an object, and it ends at a non-object |
| KeyNavigator.KeysQuestionPicks | bin/copy-translations.js:51-70 | key number j is the suggestion picked by answer number j among the suggestions for the object reached by the first j keys |
| KeyNavigator.KeysQuestionReadsOnlyPath | bin/add-translation.js:35-60 | a path of n keys uses exactly the first n answers: one prompt per key |
| KeyNavigator.KeysQuestionReadsAtMostHeight | bin/copy-translations.js:46-71 | no more prompts are asked than the depth of the catalog, so navigation over a finite catalog ends |
| KeyNavigator.NewKeyEndsNavigation | bin/copy-translations.js:66-70 | picking a key the current object lacks ends navigation with that key last; in a parsed-JSON catalog this happens only in allow-new mode with the typed text |
| KeyNavigator.ExistingKeysOnly | bin/copy-translations.js:111-112 | without allow-new, on a parsed-JSON object catalog, every chosen key exists at its level, the path ends at a string, and reading it succeeds |
| Languages.Split | bin/copy-translations.js:101 | splitting on commas gives one more piece than there are commas, none containing a comma |
| Languages.SplitJoin | bin/copy-translations.js:101 | joining the pieces with commas gives back the argument |
| Languages.JoinSplit | bin/copy-translations.js:101 | splitting comma-joined, comma-free names gives back the names |
| Languages.ToFilenames | bin/add-translation.js:100 | one file name per language, in order, each the language followed by ".json" |
| Languages.Filenames | bin/copy-translations.js:101 | the argument yields one file name per comma-separated piece, so there is always a first file |
| Languages.FilenamesOfLanguages | bin/add-translation.js:100 | for comma-free languages, the file names are the languages in order with ".json" appended, and each language can be read back from its file name |
| CopyTranslations.MakesCycle | bin/copy-translations.js:36-42 | a copy within one catalog makes it circular only when the copied value is an object and the destination lies strictly below the source path; copying a path onto itself never does |
| CopyTranslations.NoObjectBelowItself | bin/copy-translations.js:42 | no finite catalog holds an object strictly below itself, which is why the circular catalog cannot be serialised and the step throws |
| CopyTranslations.CopyStep | bin/copy-translations.js:32-43 | a step that succeeds changes only the destination catalog of its file name and adds or removes no file |
| CopyTranslations.CopyAll | bin/copy-translations.js:31-44 | the loop adds or removes no file |
| CopyTranslations.Write | bin/copy-translations.js:31-44 | the loop over the file names produces the outcome of the step-by-step definition |
| CopyTranslations.CopyAllFrame | bin/copy-translations.js:31-44 | no file other than the listed destination catalogs changes |
| CopyTranslations.CopyAllWritesEach | bin/copy-translations.js:36-40 | a run without error leaves every listed destination as setting the original source's value at the destination path makes it: between two directories even for a language listed twice, within one directory for a language listed once |
| CopyTranslations.CopyAllGetsValue | bin/copy-translations.js:31-44 | after a run without error, each destination reads at the destination path what its source read at the source path (between two directories, or within one for a language listed once), and between two directories each source is unchanged |
| CopyTranslations.CopyAllStopsAtFailure | bin/copy-translations.js:31-44 | files are processed in list order; a failed run has completed every file before the failing one and rolled nothing back |
| CopyTranslations.CopyIntoOwnChildFails | bin/copy-translations.js:36-42 | example: in the catalog `{a: X}` with no "a" inside X, copying a to a.a within one directory throws and writes nothing |
| CopyTranslations.CopyListedTwiceRereads | bin/copy-translations.js:31-44 | example: within one directory, a language listed twice is copied twice, the second pass reading the first pass's result, so the destination no longer reads the original source value |
| CopyTranslations.CopyScenario | bin/copy-translations.js:31-44 | copying x.y into an empty z gives z.y, and the source catalog is unchanged |
| CopyTranslations.CopyCommand | bin/copy-translations.js:101-121 | the command adds or removes no file |
| CopyTranslations.Run | bin/copy-translations.js:92-122 | the main flow's outcome is that of the command, whatever the confirmation answer |
| AddTranslation.AddStep | bin/add-translation.js:25-31 | a step that succeeds changes only the catalog of its file name and adds or removes no file |
| AddTranslation.AddAll | bin/add-translation.js:24-33 | the loop adds or removes no file |
| AddTranslation.Write | bin/add-translation.js:24-33 | the loop over the file names produces the outcome of the step-by-step definition |
| AddTranslation.AddAllFrame | bin/add-translation.js:24-33 | no file other than the listed catalogs changes |
| AddTranslation.AddAllWritesEach | bin/add-translation.js:24-33 | a run without error leaves every listed catalog as setting the one typed text at the path makes it, even for a language listed twice |
| AddTranslation.AddAllSetsText | bin/add-translation.js:24-33 | after a run without error, every listed catalog whose containers are present reads the same text at the path and stays a parsed-JSON catalog |
| AddTranslation.AddAllStopsAtFailure | bin/add-translation.js:24-33 | files are processed in list order; a failed run has completed every file before the failing one and rolled nothing back |
| AddTranslation.AddScenario | bin/add-translation.js:24-33 | adding "new" at a.c to en and de catalogs puts it beside the existing b in both |
| AddTranslation.AddCommand | bin/add-translation.js:100-115 | the command adds or removes no file |
| AddTranslation.Run | bin/add-translation.js:91-116 | the main flow's outcome is that of the command, whatever the confirmation answer |

## Left out

- Argument parsing with yargs and its `.check`: a library call. The directories and the `--langs` text are parameters.
- Prompt rendering, the autocomplete plugin, and the chalk and console messages (`msg`, `ln`, the confirmation text): user interface.
- Prompts are modelled as scripted answers. The free-text prompt of the add tool is the `value` parameter.
- KeyNavigator.KeysQuestion: a pick outside the suggestion list, or running out of answers, is modelled as an abandoned prompt (`PromptAborted`). The real prompt can only return a listed suggestion and waits for ever.
- KeyFilter.Candidates: the prompt's input before anything is typed (`undefined`) is modelled as the empty string. Both select every key of a non-empty level. On an empty level in allow-new mode the fallback `[input]` offers `[undefined]` in the source and `[""]` in the model. What the prompt then returns for the `undefined` choice is not modelled; in the model, picking it chooses the key "".
- `JSON.stringify` and `prettier.format`: serialisation is not modelled. In particular, serialising drops properties whose value is `undefined`, which a copy from a missing source key would assign; the model keeps them as `Absent`.
- File loading with `require`, `path.join`, `process.cwd` and `fsPromises.writeFile`. Files are a map from (directory, file name) to catalog, and path normalisation is not modelled: two spellings of one directory are two paths here.
- A catalog file that does not exist makes `require` throw. The model returns `FileNotFound` instead; the contents of files that fail to parse are not modelled.
- async/await ordering, and the fact that `write` is not awaited: only process lifetime and concurrency depend on them.
- JSON numbers, booleans, `null` and arrays are not modelled: catalogs hold objects and strings only.
- Character indexing and `length` of string leaves: a key path into a string reads `undefined` here even when the key is a digit or `length`.
- Inherited properties of objects (`toString`, `__proto__`) and the integer-first order that `Object.keys` gives integer-like keys: properties are own, string-keyed, in insertion order.
- In-place mutation is modelled on values, returning the updated catalog. The sharing it causes matters only when source and destination are one file; that case is modelled through the single `Disk` map and `MakesCycle`.
- CopyTranslations.CopyAllWritesEach: not stated for a language listed twice within one directory. The second pass reads the catalog the first pass wrote (`CopyListedTwiceRereads`), and the step-by-step definition `CopyAll` is the statement for that case.
- CopyTranslations.CopyAllGetsValue: not stated for a language listed twice within one directory, for the same reason. Within one directory the source catalog is the destination, so it is not stated to be unchanged there.
- Round trip of a catalog through serialisation and parsing is not stated, since serialisation is left out.
