# dart-extract-arb, modelled in Dafny

This project models the core of a VS Code extension for Flutter projects.
The extension moves hard-coded string literals out of Dart code into ARB
localisation files. An ARB file is a JSON object mapping message keys to
texts, one file per language (`app_en.arb`, `app_fr.arb`, ...). The
extension has four pieces of logic.

- The single-literal action (`extractStringToArb`). It strips the quotes,
  asks for a key, and writes the key to every ARB file. Only then does it
  replace the literal with `keyPrefix + key` and add the import line, in one
  WorkspaceEdit.
- The whole-file and whole-project commands. They walk the matches of
  `Text\s*\(\s*(['"])([^$\\]*?)\1\s*[\),]` from last to first and skip blank
  literals and `//` lines. They compute the exact range of each quoted
  literal and stage its replacement. They collect a key-to-text record and
  write it to all ARB files in one batch, 50 entries per translation chunk.
- The options. They start from defaults, and `setupConfig` merges
  `l10n.yaml` into them with `??`. The key prefix comes from `key-prefix`,
  and otherwise from `nullable-getter`.
- `isStringLiteral`, the test the code-action provider uses.

## How the model is built

The model keeps the form of the code it models.

- The option object the code reassigns is the class `Config.Settings`. A
  VS Code `WorkspaceEdit` is the class `Workspace.WorkspaceEdit`, with a
  list of `(start, end, newText)` edits.
- The commands are methods with the same early returns and loops as the
  code. Each is proved against a specification function (`SyncFrom`,
  `BatchFrom`, `Stage`, `AllPairs`), and the properties are lemmas about
  those functions.
- A JavaScript `Record<string, string>` filled by `rec[key] = value` is
  `Records.Dict`. It is an insertion-ordered list of entries with distinct
  keys, so `Object.keys` and `Object.values` keep their order.

The outside world becomes inputs:

- The ARB directory is a value, `ArbFiles.Disk`, handed in and handed back.
  Each file in it is either a parsed JSON object (a map) or text that
  `JSON.parse` rejects. The value also records whether the directory can be
  listed and which names cannot be written.
- `getKey` is a list of answers, one per match; "" means the prompt was
  cancelled or left empty.
- `translateText` and `translateTextBatch` are function parameters.
- The answer `applyEdit` gives is a boolean parameter.
- What `readL10nConfig` returns is an `Option<L10nConfig>` parameter.
- The regex matches themselves are `Matches.Match` records. The guarantees
  the regex gives are stated as the predicate `RegexShaped`, and that the
  match occurs at its index is stated as `MatchesIn`.

The modules, in dependency order:

- `Wrappers`: `Option`.
- `JsText`: the JavaScript string built-ins the code uses: `trim`,
  `startsWith`, `indexOf`, `includes`, `slice`, `split`.
- `Records`: `Record<string, string>`.
- `Utils`: `isStringLiteral` and `chunkArray`.
- `Config`: `src/options.ts`.
- `Workspace`: `WorkspaceEdit`.
- `ArbFiles`: `src/files.ts`.
- `Matches`: the match loop shared by the two commands.
- `Action`: `src/action.ts` and `src/commands/action.ts`.
- `ExtractFile`: `src/commands/extractFile.ts`.
- `ExtractProject`: `src/commands/extractProject.ts`.

### Behaviour of the code worth knowing

- **Language code.** The code takes `split("_")[1].split(".")[0]`: the text
  between the first and second `_`, cut at the first `.`. So `lang_en.arb`
  gives `en`, `app_en_US.arb` also gives `en`, and a name without `_` throws
  (`ArbFiles.LangCodeOfName`, `ArbFiles.LangCodeDefined`).
- **Batch without translation.** The batch update computes `targetLang`
  even when translation is off. So a `.arb` file without `_` in its name
  still makes the whole batch fail at that file (`ArbFiles.BatchGood`).
- **Deleting `l10n.yaml`.** The watcher's message says "config reset"
  (`src/options.ts:88`), but
  `setupConfig` returns early when the file is missing. The options are
  left as they were (`Config.Settings.SetupConfig`).
- **Repeated keys.** Within one document the countdown visits matches from
  last to first, so the earliest match with a key wins
  (`Matches.EarliestWins`). Across a project the files are visited in
  discovery order, so the later file wins (`ExtractProject.LaterFileWins`).
- **Surplus translations.** The batch merge writes
  `arbJson[keyChunks[i][idx]]` for every translation it gets back. When the
  translator returns more texts than it was given, the key is `undefined`,
  so the file gains the property `"undefined"` (`ArbFiles.MergeChunk`). That
  is the one key outside the batch a merge can change
  (`ArbFiles.MergedKeepsOtherKeys`).
- **`applyEdit` in the single-literal action.** Its answer is ignored;
  codegen and the success message follow regardless
  (`Action.ExtractStringToArb`).

## Model

| member | source | states |
|---|---|---|
| Utils.IsStringLiteralClosedForm | src/utils.ts:7-9 | The anchored lazy regex accepts exactly the texts of length at least 2 that begin and end with a quote and have no line terminator in between. |
| Utils.LazyTailClosedForm | src/utils.ts:8 | After the opening quote, the lazy group succeeds from position `i` exactly when a closing quote is the last character and nothing in between ends a line. |
| Utils.LiteralShape | src/utils.ts:8 | An accepted literal has length at least 2, and its first and last characters are quotes. |
| Utils.LiteralAccepts | src/utils.ts:8 | Any quote, any one-line body (empty, or containing quotes) and any quote make a literal. |
| Utils.MismatchedQuotesAccepted | src/utils.ts:8 | Mismatched quotes are accepted: `'abc"` is a literal. |
| Utils.LiteralRejects | src/utils.ts:8 | Texts shorter than 2 and texts containing a line terminator are rejected. |
| Utils.Chunk | src/files.ts:89-90 | The assumed `chunkArray`: slices of at most `n` elements, every one full except the last, whose concatenation is the input. |
| Utils.ChunksAligned | src/files.ts:83-90 | Keys and texts of one record, chunked with the same size, give chunk lists of the same shape, so the key at `[i][j]` belongs with the text at `[i][j]`. |
| JsText.Trim | src/commands/extractFile.ts:50 | `trim()` shortens the text, and a non-empty result neither starts nor ends with whitespace; `TrimPiece` adds that only whitespace is dropped at either end. |
| JsText.TrimEmpty | src/commands/extractFile.ts:50 | `!s.trim()` holds exactly when `s` is all whitespace. |
| JsText.TrimPiece | src/commands/extractFile.ts:52-54 | The trimmed text is the piece of the original that starts after its leading whitespace, and everything `trim()` drops before and after it is whitespace; with `Trim`'s own contract this fixes the result exactly. |
| JsText.IndexOf | src/commands/extractFile.ts:58 | `indexOf` returns -1 or an occurrence, and no occurrence lies before the result. |
| JsText.Before | src/files.ts:54 | `split(c)[0]` is the longest prefix without `c`, ending at the first `c` if there is one. |
| JsText.After | src/files.ts:54 | The text after the first `c`, which is None exactly when there is no `c`. |
| Records.Set | src/commands/extractFile.ts:79 | `rec[key] = value` keeps the length for an existing key, appends for a new key, and adds the key to the key set. |
| Records.SetTable | src/commands/extractFile.ts:79 | Viewed as a map, an assignment updates exactly one key, and the keys stay distinct. |
| Records.SetKeepsOrder | src/commands/extractFile.ts:79 | Re-assigning an existing key leaves `Object.keys` in the same order. |
| Records.Assign | src/commands/extractFile.ts:79 | Assigning to the record built by assignments `p` gives the record built by `p` plus this assignment. |
| Records.RecordMap | src/commands/extractProject.ts:71-72 | As a map, the record built by a list of assignments maps each key to its last assigned value. |
| Records.RecordKeys | src/commands/extractProject.ts:71-72 | The record's keys are exactly the keys ever assigned. |
| Records.RecordSize | src/commands/extractFile.ts:83 | `Object.keys(rec).length` counts the distinct keys assigned, and it is 0 exactly when nothing was assigned. |
| Records.ToMapLast | src/commands/extractFile.ts:79 | An assignment that no later assignment overrides decides that key's value. |
| Config.Defaults | src/options.ts:17-28 | The initial options: `lib/l10n`, `app_en.arb`, translation on, the nullable prefix, no import, key naming on, codegen on, `en`. |
| Config.MergeFields | src/options.ts:41-52 | Every field except `keyPrefix` takes the configured value when present, and keeps its old value otherwise. |
| Config.ExplicitFalseKept | src/options.ts:45-50 | An explicit `false` for `translate` or `generate` turns the option off, since `??` only replaces null and undefined. |
| Config.KeyPrefixRule | src/options.ts:35-47 | `key-prefix` wins. Otherwise `nullable-getter` true or absent gives `AppLocalizations.of(context)!.` and false gives `AppLocalizations.of(context).`. The old prefix never survives. |
| Config.MergeIdempotent | src/options.ts:41-52 | Merging the same configuration twice gives the same options as merging it once. |
| Config.Settings.constructor | src/options.ts:17-28 | The module starts with the default options. |
| Config.Settings.SetupConfig | src/options.ts:31-53 | A missing, unreadable or falsy config leaves the options unchanged; otherwise they become the merge of the old options with the config. |
| Workspace.WorkspaceEdit.constructor | src/commands/extractFile.ts:41 | A new WorkspaceEdit holds no edits. |
| Workspace.WorkspaceEdit.Replace | src/commands/extractFile.ts:74-78 | `replace` appends one edit, and the earlier edits stay. |
| Workspace.WorkspaceEdit.Insert | src/action.ts:52 | `insert` appends one empty-range edit at the position, and the earlier edits stay. |
| ArbFiles.UpdateFile | src/files.ts:13-27 | Succeeds exactly when the file parses (a missing file reads as `{}`) and can be written; then the file holds its old map with the key set, and otherwise nothing changes. |
| ArbFiles.SetKeyEffect | src/files.ts:18-20 | After the write, the file maps the key to the value, keeps every other key and value, and the other files are untouched. |
| ArbFiles.MissingFileHoldsOneKey | src/files.ts:15-20 | A file that did not exist holds exactly `{key: value}` afterwards. |
| ArbFiles.SetKeyIdempotent | src/files.ts:19 | Writing the same key and value a second time changes nothing more. |
| ArbFiles.LangCodeDefined | src/files.ts:54 | The language code is undefined, so the split throws, exactly when the file name has no `_`. |
| ArbFiles.LangCodeOfName | src/files.ts:54 | `<base>_<code>.<ext>` and `<base>_<code>_<rest>` both give `<code>`: `app_fr.arb` gives `fr`, `app_en_US.arb` gives `en`. |
| ArbFiles.ArbNames | src/files.ts:45 | The listing filtered to exactly the names ending in `.arb`, with no duplicates introduced. |
| ArbFiles.ArbNamesOne | src/files.ts:45 | A single directory entry is kept exactly when it ends in `.arb`. |
| ArbFiles.ArbNamesAppend | src/files.ts:45 | The filter keeps the directory's order: filtering a concatenated listing concatenates the filtered parts, so the files are visited in `readdirSync` order. |
| ArbFiles.SyncFrame | src/files.ts:47-59 | The loop leaves the listing, the unwritable set and every file outside the `.arb` list untouched. |
| ArbFiles.SyncOutcome | src/files.ts:47-60 | The loop's promise is rejected exactly when some file's value throws. It returns true exactly when, for every file, the value can be computed, the file parses and it can be written. |
| ArbFiles.SyncWrites | src/files.ts:47-59 | A file is written, with its (translated) value, exactly when it and every file before it succeeded; after the first failure no file is written. |
| ArbFiles.UpdateArbFiles | src/files.ts:29-61 | Agrees with the loop's specification: true exactly when the directory lists and every `.arb` file succeeds; non-`.arb` names are never touched. |
| ArbFiles.MergedWithTranslation | src/files.ts:83-104 | With translation on and a translator that returns one translation per text, chunk `i` of the translations is the translation of text chunk `i`, and each key ends up holding the translation of its own text. |
| ArbFiles.MergePairsExact | src/files.ts:101-103 | `forEach` over a chunk whose keys and translations line up sets each key to its translation, later entries winning. |
| ArbFiles.MergeChunksFlat | src/files.ts:92-104 | Merging the chunks one by one is the same as merging the whole key/value list at once. |
| ArbFiles.MergedWithoutTranslation | src/files.ts:83-104 | With translation off, a file ends as its old map overwritten by every entry of the batch. |
| ArbFiles.MergedKeepsOtherKeys | src/files.ts:83-104 | A key not in the batch, other than `"undefined"`, keeps its presence and its value. |
| ArbFiles.MergeChunk | src/files.ts:101-103 | The `forEach` loop computes the per-chunk merge. |
| ArbFiles.MergeIntoFile | src/files.ts:83-104 | The chunk loop computes the file's merged map. |
| ArbFiles.BatchFrame | src/files.ts:74-107 | The batch loop touches only the files it visits and leaves the listing and unwritable set as they were. |
| ArbFiles.BatchOutcome | src/files.ts:74-108 | The batch loop returns true exactly when every file parses, has a language code and can be written. |
| ArbFiles.BatchWrites | src/files.ts:74-107 | A file gets its fully merged map, written once, exactly when it and every earlier file succeeded; it is untouched otherwise, and earlier writes stay after a failure. |
| ArbFiles.BatchFiles | src/files.ts:74-107 | The file loop computes the batch specification. |
| ArbFiles.UpdateArbFilesBatch | src/files.ts:63-113 | True exactly when the directory lists and every `.arb` file succeeds; a listing failure is caught and nothing is written; non-`.arb` names are never touched. |
| ArbFiles.BatchWithTranslation | src/files.ts:63-113 | With translation on and a length-preserving translator, each file reached holds its old map with every batch key set to the translation of its text into the file's language. |
| ArbFiles.BatchWithoutTranslation | src/files.ts:63-113 | With translation off, each file reached holds its old map overwritten by the whole batch. |
| Matches.OpeningUnquoted | src/commands/extractFile.ts:26 | The part of a match before the literal, `Text`, gaps and `(`, holds no quote. |
| Matches.LiteralIndex | src/commands/extractFile.ts:57-58 | `match[0].indexOf(literal)` finds the literal right after the opening part, not at any earlier position. |
| Matches.EditBounds | src/commands/extractFile.ts:57-64 | The range starts at `match.index` plus the opening's length, is `inner.length + 2` long, and stays inside the match. |
| Matches.EditCoversLiteral | src/commands/extractFile.ts:57-78 | The replaced range covers exactly quote, inner text and quote in the document, and the new text is `keyPrefix + key`. |
| Matches.EditsApart | src/commands/extractFile.ts:45-64 | The range of an earlier match ends before the range of a later one starts. |
| Matches.LineStart | src/commands/extractFile.ts:52-53 | The start of the line holding an offset: at or before the offset, just after a line break or at 0. |
| Matches.LineStartClear | src/commands/extractFile.ts:52-53 | There is no line break between the line start and the offset. |
| Matches.LineEnd | src/commands/extractFile.ts:52-53 | The end of the line: at or after the offset, at a line break or the end of the text. |
| Matches.LineEndClear | src/commands/extractFile.ts:52-53 | There is no line break between the offset and the line end. |
| Matches.LineAtIsLine | src/commands/extractFile.ts:52-54 | `lineAt(positionAt(i)).text` is the text between the line start and end, and it holds no line break. |
| Matches.SkipRules | src/commands/extractFile.ts:50-55 | A match is skipped exactly when its inner text trims to empty, or its line, after trimming, starts with `//`. |
| Matches.DecidedAt | src/commands/extractFile.ts:50-72 | The key used for match `i` is the answer for it when it is not skipped, and "" otherwise. |
| Matches.StageSound | src/commands/extractFile.ts:45-80 | Every staged edit and assignment comes from a visited match with a non-empty key and uses that match's key and inner text. |
| Matches.StageOrder | src/commands/extractFile.ts:45-80 | Matches are staged from last to first, and every match with a non-empty key is staged. |
| Matches.EditsDescending | src/commands/extractFile.ts:45-78 | The staged ranges go strictly backwards through the document, so no replacement moves the offsets of another. |
| Matches.EditsCoverLiterals | src/commands/extractFile.ts:57-78 | Each staged edit replaces exactly its match's quoted literal in the document with `keyPrefix + key`. |
| Matches.StageEmpty | src/commands/extractFile.ts:83-86 | No assignment is staged exactly when no edit is staged, and exactly when every key is empty. |
| Matches.StagedKeys | src/commands/extractFile.ts:71-79 | Every non-empty key is in the record, and every key in the record is non-empty and was given to some match. |
| Matches.EarliestWins | src/commands/extractFile.ts:45-79 | A key's value is the inner text of its earliest match, because that match is visited last. |
| Matches.DecideKey | src/commands/extractFile.ts:50-72 | The skip tests and the `getKey` answer give the key the specification assigns to match `i`. |
| Matches.DecidedKept | src/commands/extractFile.ts:50-72 | A match keeps a key exactly when it is not skipped and the answer is non-empty, and the key is then that answer. |
| ExtractFile.StageReplacements | src/commands/extractFile.ts:41-80 | The countdown loop leaves in the WorkspaceEdit and the record exactly what the specification stages. |
| ExtractFile.ExtractAllTextsInFile | src/commands/extractFile.ts:14-110 | Reloads the options. Stops with no editor, no matches or an empty batch and touches nothing. Stops after a rejected edit without an ARB write. Otherwise runs one batch update, and codegen only after it succeeds. |
| ExtractFile.ExtractedCount | src/commands/extractFile.ts:83-107 | The reported count is the number of distinct keys, and it is 0 only for an empty batch. |
| ExtractFile.BatchValue | src/commands/extractFile.ts:45-80 | In the batch, a key carries the inner text of the first match in the document that got it. |
| ExtractProject.StageFileEdits | src/commands/extractProject.ts:54-89 | The reverse loop stages the file's edits, fills the file's record, and extends the global record by the same assignments. |
| ExtractProject.ProcessFile | src/commands/extractProject.ts:41-116 | Skips a file without matches. Adds the import only when it is non-empty and missing. Submits the edits only when the file got a key. The global record grows by the file's assignments. |
| ExtractProject.ProcessFiles | src/commands/extractProject.ts:33-117 | Every file is processed in turn, whatever happened to the others, and the global record holds all files' assignments in order. |
| ExtractProject.ExtractAllTextsInProject | src/commands/extractProject.ts:8-142 | Reloads the options. Stops without a workspace. Reports each file. Runs no ARB update for an empty batch; otherwise runs exactly one, after all files, with codegen only after success. |
| ExtractProject.ProjectCount | src/commands/extractProject.ts:121-141 | The reported count is the number of distinct keys over all files, and the batch is empty exactly when no file assigned a key. |
| ExtractProject.FileKeysInBatch | src/commands/extractProject.ts:71-72 | Every key assigned in any file is in the global batch, including files whose edit was rejected. |
| ExtractProject.LaterFileWins | src/commands/extractProject.ts:71 | A later file's assignments override the earlier files' values for the same key. |
| Action.LiteralValueStrips | src/commands/action.ts:24 | `text.slice(1, -1)` drops exactly the first and last characters, and gives "" for texts shorter than 2. |
| Action.LiteralValueOfLiteral | src/action.ts:18 | For a string literal, the value is its body between the two quotes. |
| Action.DropLeadingQuotes | src/action.ts:45 | Removing the leading run of quotes leaves a text that does not start with a quote. |
| Action.LeadingQuotesRemoved | src/action.ts:45 | Everything the leading removal drops is a quote. |
| Action.DropTrailingQuotes | src/action.ts:45 | Removing the trailing run of quotes leaves a text that does not end with a quote. |
| Action.TrailingQuotesRemoved | src/action.ts:45 | Everything the trailing removal drops is a quote. |
| Action.NormalizeImportShape | src/action.ts:45 | The normalised import line is a piece of the trimmed line that neither starts nor ends with a quote. |
| Action.NormalizeQuoted | src/action.ts:45 | Runs of quotes around a core that starts and ends with neither a quote nor whitespace normalise to that core. |
| Action.ImportEditsShape | src/action.ts:41-53 | Nothing is staged exactly when the normalised import is empty or already in the document; otherwise one insertion of the import plus a newline at (0,0). |
| Action.ImportOnce | src/action.ts:49-52 | Once the insertion is applied, a second call stages nothing. |
| Action.AddImportIfMissing | src/action.ts:41-53 | Appends to the WorkspaceEdit exactly the import edits, and keeps the earlier edits. |
| Action.ReplaceAndImport | src/action.ts:27-31 | The single WorkspaceEdit holds the replacement first, followed by the import edits. |
| Action.ExtractStringToArb | src/action.ts:8-39 | Reloads the options. Does nothing without an editor or with an empty key. Writes the ARB files first, and submits no edit when that fails or throws. On success, submits the replacement and the import in one edit, and codegen follows only when enabled. |

## Left out

- The build output under `dist/` and the plotting script under `demo/` are
  not source of the extension.
- `src/extension.ts` and `src/codeActionProvider.ts` register the commands
  and the code action with the host. Their only decision is
  `isStringLiteral`, which is modelled.
- File system calls, `JSON.parse`/`JSON.stringify` and YAML loading are
  inputs and outputs of the `Disk` value and the `Option<L10nConfig>`
  parameter. Key order inside an ARB file, pretty-printing, JSON values that
  are not objects or not strings, and the special keys `__proto__` and
  integer-like keys are not modelled.
- Texts are sequences of characters. UTF-16 code units and surrogate pairs
  are not modelled.
- Config values of the wrong type are not modelled. `??` only replaces null
  and undefined, and every present config value is taken to have its
  documented type. A falsy parsed config is modelled as a missing one.
- Translator failures are not modelled: `translateText` and
  `translateTextBatch` are total functions.
- The second `applyEdit` of the same WorkspaceEdit in
  `src/commands/extractFile.ts:94-95` is not modelled. Its effect depends on
  host edit semantics, and its result is ignored.
- Progress reporting, the `fileCount` counter, saving each edited document
  and the error and information messages are left out. They are host UI;
  the messages appear only as the notice each command ends with.
- The `addImportIfMissing` of the utils module is not part of this model.
  `src/commands/action.ts` imports it, and `Action.ExtractStringToArb`
  assumes it behaves like the one in `src/action.ts:41-53`, which is the
  import logic modelled. The same logic is written inline in `src/commands/extractProject.ts:92-101`.
- `getKey` and its key slugging are not part of this model. Its code is not
  shown, so its answers are inputs.
- `chunkArray` is not part of this model either. `Utils.Chunk` is a stated
  assumption about what it returns.
- `runFlutterGenL10n` is only a boolean result saying whether codegen is
  started.
- The glob search for Dart files and its exclusions are left out: the files
  found are an input list.
- The file watcher is left out. Only what its delete handler does, a
  `setupConfig` with no config, is covered by `Config.Settings.SetupConfig`.
- Action.ExtractStringToArb, ExtractFile.ExtractAllTextsInFile and
  ExtractProject.ExtractAllTextsInProject take one snapshot of the options
  right after `setupConfig`. The code reads the module-level `options` again
  after each `await`, for example `keyPrefix` after the key prompt and
  `arbDirName` and `autoTranslate` inside the ARB update. The watcher
  (`src/options.ts:79-89`) can reassign `options` during those awaits, and
  the model does not capture a reload that lands mid-command.
- ExtractFile.ExtractAllTextsInFile does not model a document open with no
  workspace folder. There `path.join(undefined, …)` (`src/files.ts:66-67`)
  throws before the `try`, so the command's promise is rejected and no
  message is shown. The model has no separate case for this: the nearest
  case, an unlistable directory, answers `(false, d)`, and the command then
  ends with "Failed to update ARB files." For Action.ExtractStringToArb the
  same throw (`src/files.ts:33-35`) is a rejection, as in the model's
  `ArbRejected`. ExtractProject.ExtractAllTextsInProject stops earlier
  without a workspace (`src/commands/extractProject.ts:11-15`).
- `positionAt` clamping is not modelled. The regex guarantees that each
  match lies inside the document (`Matches.MatchesIn`), so offsets are used
  directly.
