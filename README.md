# Electric Book publish pipeline, modelled in Dafny

This project models the decision logic of the Electric Book publishing
tools. That logic lives in two scripts:

- `_tools/run/helpers/helpers.js`, the helpers behind the gulp-based build;
- `run.js`, the older stand-alone runner.

File reads, YAML loading, directory listings and child processes are turned
into plain inputs. What remains is deterministic, and the model covers it:

- **Metadata cascade.** `fileList` in both scripts chooses a book's ordered
  content-file list. It takes the first list found among the variant
  document, the translation's `default.yml` and the book's `default.yml`.
  YAML documents are datatypes, and the file system is a map from path to
  parsed document (`metadata.dfy`, `names.dfy`, `run_script.dfy`).
- **Path and name builders.**
  - `htmlFilePaths` / `filePaths`, `outputFilename` and `bookAssetPaths`
    (`names.dfy`, `run_script.dfy`).
  - `mathjaxEnabled`, over the config files `configsObject` reads
    (`names.dfy`).
  - The Jekyll config lists `configString` / `configs` and the switches
    `jekyllSwitches` / `switches`. These accumulate strings with `+=` and
    are modelled as methods proved against specification functions
    (`jekyll_config.dfy`, `run_script.dfy`).
- **EPUB container assembly.** `epubZip` walks the `_site/epub` tree with the
  recursive `getFiles`. It then adds a STORE `mimetype` entry first and one
  DEFLATE entry per file, in depth-first `readdir` order (`epub.dfy`). The
  mimetype-first rule is the one in section 4.3 of EPUB Open Container
  Format 3.0.
- **`addToEpub`.** The destination folder logic and the `totalCopied`
  counter (`epub.dfy`).
- **Word export counter.** The `convertHTMLtoWord` promise resolves when
  the successes reach the number of files (`word_export.dfy`).
- **Format pipelines.** `web`, `pdf`, `epub`, `app`, `exportWord` and
  `refreshIndexes` are stage sequences run by a small machine. It issues
  stages in order and stops at the first rejection that escapes its stage.
  The machine also covers the promise semantics of `logProcess`
  (`pipeline.dfy`).
- **run.js state.**
  - The callback semantics of its `logProcess`.
  - The `mathjaxRendered` / `outputPDF` flag machine, as a class whose
    method updates the flag in place.
  - The `taskOutput` dispatch (`run_script.dfy`).

JavaScript conventions are written out in `js.dfy`:

- Truthiness of strings and flags.
- `String(undefined) == "undefined"`.
- Exceptions become a `Thrown` value inside a `Result`.

`text.dfy` models the string built-ins that the scripts use:

- `split` on one character and `join`.
- The quote-stripping `replace` chain.
- `path.normalize`, restricted to collapsing repeated `/`.
- `path.basename` and `path.dirname`.

Where the project's own description and the code differ, the model follows
the code:

- With a language set, `fileList` never consults the book-level
  `<variant>.yml`. There is no fallback from a translation's variant to
  the parent's variant.
- The Word export never resolves if any conversion fails. It also never
  resolves for an empty file list; it does not accept "most files
  converted".

## Model

| member | source | states |
|---|---|---|
| Metadata.ActiveVariant | _tools/run/helpers/helpers.js:500-504 | a missing settings document throws; a variant is active exactly when `active-variant` is truthy, and is never `''` |
| Metadata.ListAt | _tools/run/helpers/helpers.js:542-547 | a list is found only in a document that exists and was loaded |
| Metadata.Consulted | _tools/run/helpers/helpers.js:516-575 | the default document is always among the documents the cascade reads |
| Metadata.Cascade | _tools/run/helpers/helpers.js:489-579 | errors exactly when settings are missing or the default lookup throws; a missing `default.yml` gives no-such-file; no default list gives `[]`; otherwise the result is exactly one consulted document's list |
| Metadata.Precedence | _tools/run/helpers/helpers.js:520-575 | wholesale replacement: the variant's list if defined, else the translation's, else the default's |
| Metadata.DependsOnlyOnConsulted | _tools/run/helpers/helpers.js:511-575 | two stores that agree on the consulted paths give the same result |
| Metadata.NoParentVariantFallback | _tools/run/helpers/helpers.js:553-562 | the variant document is `<work>/<language>/<variant>.yml` with a language; changing or removing `<work>/<variant>.yml` then changes nothing |
| Metadata.NoDefaultListIgnoresOverrides | _tools/run/helpers/helpers.js:523-527 | without a default list the result is `[]` whatever the translation and variant documents hold |
| Metadata.EmptyVariantIsNoVariant | _tools/run/helpers/helpers.js:500-504 | `active-variant: ''` behaves as no variant |
| Metadata.FallbackFormat | _tools/run/helpers/helpers.js:492-497 | an unset or empty format behaves exactly as the fallback format |
| Metadata.FrenchAbridgedExample | _tools/run/helpers/helpers.js:529-575 | with language `fr` and variant `abridged`, the French list wins over a book-level `abridged.yml` |
| Names.FileListDefaultsToPrintPdf | _tools/run/helpers/helpers.js:492-497 | the helpers' `fileList` defaults the format to `print-pdf` |
| Names.FileList | _tools/run/helpers/helpers.js:489-579 | without a format, the result is the cascade for the `print-pdf` lists |
| Names.HtmlFilePaths | _tools/run/helpers/helpers.js:582-627 | fails exactly when `fileList` throws; same length and order as the list; element i is the normalized `<cwd>/_site/<book>[/<language>]/<name><ext>` |
| Names.HtmlFilePathNames | _tools/run/helpers/helpers.js:614-624 | the basename of each path, without the extension, is the entry's name (the first key of an object entry) |
| Names.OutputFilename | _tools/run/helpers/helpers.js:49-65 | ends in `.epub` iff the format is `epub`, else in `.pdf`; the name is `<book>-<language>-<format><ext>` with a language and `<book>-<format><ext>` without |
| Names.MergedSettingFails | _tools/run/helpers/helpers.js:259-274 | reading the config files fails exactly when some piece names no file, and then with the first such piece |
| Names.LastSettingWins | _tools/run/helpers/helpers.js:254-273 | when every piece names a file, the last file that sets the key decides its value |
| Names.NoSetting | _tools/run/helpers/helpers.js:269-273 | when no file sets the key, its value is `undefined` |
| Names.MathjaxEnabled | _tools/run/helpers/helpers.js:320-334 | throws exactly when some config piece names no file; when it returns, a truthy option turns MathJax on |
| Names.MathjaxFromLastSetting | _tools/run/helpers/helpers.js:320-334 | with every config file present, on exactly when the option is truthy or the last file setting `mathjax-enabled` sets the boolean `true` |
| Names.MathjaxWithoutSetting | _tools/run/helpers/helpers.js:320-334 | with no file setting the key, only the option turns MathJax on |
| Names.WordExportMathDisabled | _tools/run/helpers/helpers.js:320-334 | on a Word export a `mathjax-enabled: false` in the math-disabled config overrides every other file |
| Names.GluedConfigThrows | _tools/run/helpers/helpers.js:259-274 | with a format and `--configs`, the test throws with the glued piece as the missing file |
| Names.RenderMathjaxTest | _tools/run/helpers/helpers.js:341 | when the test returns, `renderMathjax`'s extra `argv.mathjax` test adds nothing |
| Names.MathjaxTextValues | _tools/run/helpers/helpers.js:329 | a config string `"true"` does not enable MathJax; the option string `"false"` does |
| Names.ListingPaths | _tools/run/helpers/helpers.js:1039-1052 | one normalized `<dir>/<name>` per listed name, in order |
| Names.BookAssetPaths | _tools/run/helpers/helpers.js:991-1055 | succeeds exactly when the chosen directory can be listed; paths are that listing under it; an empty translated directory with a language set throws |
| Names.NoParentAssetFallback | _tools/run/helpers/helpers.js:1011-1035 | with a language set, the parent asset directory's listing never matters |
| JekyllConfig.ConfigString | _tools/run/helpers/helpers.js:145-175 | the `+=` accumulation yields the string as written |
| JekyllConfig.ConfigStringStart | _tools/run/helpers/helpers.js:148-149 | the config string always starts with `_config.yml` |
| JekyllConfig.ConfigStringEnd | _tools/run/helpers/helpers.js:168-172 | on a Word export the string ends with `,_configs/_config.math-disabled.yml` |
| JekyllConfig.ConfigFiles | _tools/run/helpers/helpers.js:145-175 | the intended list starts with `_config.yml`, holds the `--configs` file and ends with the math-disabled config on a Word export |
| JekyllConfig.IntendedConfigPieces | _tools/run/helpers/helpers.js:259-266 | splitting the intended string on commas, as `configsObject` does, gives back exactly the config files |
| JekyllConfig.MathDisabledLastIffWordExport | _tools/run/helpers/helpers.js:163-172 | in the intended list, for comma-free options, a format other than `math-disabled` and a `--configs` file other than the math-disabled config, that config is the last piece iff the command is `export` with `export-format` `word` |
| JekyllConfig.MathDisabledLastAsWritten | _tools/run/helpers/helpers.js:145-175 | under the same conditions, the same iff holds for the string the code builds, glued piece included |
| JekyllConfig.LastConfigFile | _tools/run/helpers/helpers.js:163-172 | the last config file is the math-disabled one exactly on a Word export |
| JekyllConfig.AsWrittenWithoutConfigs | _tools/run/helpers/helpers.js:145-175 | without `--configs` the string as written equals the comma-joined intended list |
| JekyllConfig.ConfigsGluedToFormatConfig | _tools/run/helpers/helpers.js:157-161 | with a format and `--configs`, the extra file is glued onto the format config, and `configsObject`'s split never sees it |
| JekyllConfig.JekyllSwitches | _tools/run/helpers/helpers.js:178-217 | the `+=` accumulation yields `--baseurl=<url> ` then `--incremental `; a non-empty `--switches` throws a TypeError |
| JekyllConfig.SwitchesAreTokens | _tools/run/helpers/helpers.js:181-195 | the switches split on spaces into exactly the switch tokens, plus a trailing empty piece |
| JekyllConfig.SwitchesPresence | _tools/run/helpers/helpers.js:187-195 | `--incremental` is present iff `argv.incremental === true`; a baseurl switch is present iff the baseurl is non-empty |
| JekyllConfig.IncrementalToken | _tools/run/helpers/helpers.js:193-195 | the incremental token is present iff the option is the boolean `true` |
| JekyllConfig.BaseurlToken | _tools/run/helpers/helpers.js:187-190 | a `--baseurl=` token is present iff the baseurl is non-empty |
| JekyllConfig.Jekyll | _tools/run/helpers/helpers.js:220-252 | the spawned arguments are `exec jekyll <command> --config <configString> --baseurl <url> <switches>`, the command `serve` exactly for `output` of `web` (223-227); a throwing switches call is caught and nothing is spawned |
| Epub.PathsOfUnder | _tools/run/helpers/helpers.js:797-808 | paths of a subdirectory's files are the posix join of the subdirectory and their own paths |
| Epub.GetFiles | _tools/run/helpers/helpers.js:792-815 | the recursive walk appends exactly the tree's files, as relative paths, in depth-first `readdir` order |
| Epub.GetChildFiles | _tools/run/helpers/helpers.js:804-810 | the `forEach` over a directory appends each child's files in order |
| Epub.VisitChild | _tools/run/helpers/helpers.js:806-810 | a child named `mimetype` adds nothing; any other child adds its own files |
| Epub.FindChild | _tools/run/helpers/helpers.js:830-831 | a path segment resolves to a child of that name, or to none when no child has it |
| Epub.FileEntries | _tools/run/helpers/helpers.js:828-832 | one entry per walked path when every file can be read |
| Epub.FileEntriesAt | _tools/run/helpers/helpers.js:828-832 | entry i holds path i, the bytes read from it, and DEFLATE |
| Epub.FileEntriesOkIff | _tools/run/helpers/helpers.js:828-832 | the entries are built iff every path can be read |
| Epub.FirstUnreadable | _tools/run/helpers/helpers.js:817-848 | the first unreadable path's error is the one the zip step rejects with |
| Epub.EpubZip | _tools/run/helpers/helpers.js:775-850 | the zip loop yields the specified entries; a missing `_site/epub` fails with no archive; the first entry is the STORE `mimetype` |
| Epub.ZipLayout | _tools/run/helpers/helpers.js:824-832 | `mimetype` first and STORE, then every walked path, in order, each DEFLATE |
| Epub.FilesAreReadable | _tools/run/helpers/helpers.js:804-813 | in a well-formed tree every file the walk collects can be read back |
| Epub.PathOfSegments | _tools/run/helpers/helpers.js:797 | a joined relative path splits on `/` back into its segments |
| Epub.ZipOfWellFormedTree | _tools/run/helpers/helpers.js:817-832 | a well-formed tree always zips; each entry after the first carries its file's content and is not named `mimetype` |
| Epub.WalkedPathReadable | _tools/run/helpers/helpers.js:830-831 | reading a walked path gives back that file's content |
| Epub.DestinationPath | _tools/run/helpers/helpers.js:940-947 | the destination folder always ends with `/` |
| Epub.DestinationSlashOptional | _tools/run/helpers/helpers.js:940-943 | `folder` and `folder/` name the same destination |
| Epub.CopiesFor | _tools/run/helpers/helpers.js:957-983 | no more copies than paths |
| Epub.CopiesLand | _tools/run/helpers/helpers.js:960-969 | each copy's source exists and copies cleanly; a directory copies into the destination, a file to destination plus basename |
| Epub.CopiesForStep | _tools/run/helpers/helpers.js:972 | each path adds one copy exactly when it exists and copies cleanly |
| Epub.AllCopiedIff | _tools/run/helpers/helpers.js:972-977 | `totalCopied` reaches the number of paths iff every path is copied |
| Epub.AddToEpub | _tools/run/helpers/helpers.js:936-987 | the loop performs exactly the specified copies, `totalCopied` counts them, and an undefined folder copies nothing |
| WordExport.PandocCallFor | _tools/run/helpers/helpers.js:1153-1164 | pandoc gets the HTML file, `--resource-path=<its directory>` first, and the `.docx` output path last |
| WordExport.CountTrue | _tools/run/helpers/helpers.js:1166-1176 | the number of successful conversions never exceeds the number of callbacks |
| WordExport.CountConversions | _tools/run/helpers/helpers.js:1133-1183 | the counter loop yields the successes, and resolves as specified |
| WordExport.CountAllTrue | _tools/run/helpers/helpers.js:1175-1181 | the count equals the number of callbacks iff every conversion succeeded |
| WordExport.OneCallbackPerFile | _tools/run/helpers/helpers.js:1152-1186 | with one callback per file, the promise resolves iff there are files and all succeed |
| WordExport.OneFailureOfFive | _tools/run/helpers/helpers.js:1166-1181 | four successes out of five files never resolve |
| WordExport.PandocCalls | _tools/run/helpers/helpers.js:1152-1186 | one pandoc call per HTML path |
| WordExport.PandocCallsAt | _tools/run/helpers/helpers.js:1152-1185 | call i converts path i |
| WordExport.ConvertHtmlToWord | _tools/run/helpers/helpers.js:1124-1188 | fails exactly when `htmlFilePaths` throws; otherwise issues the calls in order, counts successes, resolves as specified |
| WordExport.WordFileNames | _tools/run/helpers/helpers.js:1154-1156 | the output file for entry `<name>` is `<name>.docx` |
| WordExport.OutputFilePath | _tools/run/helpers/helpers.js:1154-1156 | the last segment of the output path is the input's basename without `.html`, plus `.docx` |
| Pipeline.Effective | _tools/run/helpers/helpers.js:1204-1218 | a stage stops the run iff it does not catch its own error and it rejected; for a call that is not awaited only a throw from the call itself counts, and its promise never holds the run up |
| Pipeline.LogProcess | _tools/run/helpers/helpers.js:18-46 | pending until the first event; rejects iff the first event is `error` |
| Pipeline.NonZeroExitResolves | _tools/run/helpers/helpers.js:41-44 | a nonzero exit code resolves |
| Pipeline.CaughtProcessNeverStops | _tools/run/helpers/helpers.js:249-251 | a wrapper that catches never stops the run; it waits only while no event has arrived |
| Pipeline.FirstUnresolved | _tools/run/helpers/helpers.js:1207-1215 | the index of the first stage that did not resolve, with all earlier ones resolved |
| Pipeline.Run | _tools/run/helpers/helpers.js:1204-1219 | issues a prefix of the stages; completes iff every stage resolves; stops at an escaping rejection, or waits at a pending stage, as the last issued stage |
| Pipeline.CatchingStagesNeverStop | _tools/run/helpers/helpers.js:1191-1201 | stages that catch, or are not awaited and whose call does not throw, never stop a run |
| Pipeline.WebStages | _tools/run/helpers/helpers.js:1191-1201 | after clearing `_site`, every stage catches its own errors |
| Pipeline.WebNeverStops | _tools/run/helpers/helpers.js:1191-1201 | once `_site` is cleared, a web run never stops; it completes iff Jekyll settles |
| Pipeline.PdfStages | _tools/run/helpers/helpers.js:1204-1220 | Prince runs, then the output is opened last without `await`; every stage between clearing `_site` and Prince catches its errors |
| Pipeline.EpubAdditions | _tools/run/helpers/helpers.js:1234-1259 | five `addToEpub` calls and the MathJax test, plus one call each for the bundle, MathJax and `toc.ncx` when present; the test comes right after the bundle |
| Pipeline.EpubAdditionsCopies | _tools/run/helpers/helpers.js:1246-1255 | the MathJax folder is copied iff the test says on; `package.opf` is copied, and only after the test |
| Pipeline.EpubStages | _tools/run/helpers/helpers.js:1222-1272 | the zip is the third stage from the end of at least sixteen |
| Pipeline.EpubMathjaxCopy | _tools/run/helpers/helpers.js:1247-1250 | the MathJax folder is added to the EPUB exactly when `mathjaxEnabled` returns `true`, not when it returns `false` or throws |
| Pipeline.EpubOrder | _tools/run/helpers/helpers.js:1222-1272 | preparation, then only `addToEpub` calls and the MathJax test, then zip, rename and validate, with exactly one zip |
| Pipeline.MissingEpubFolderStops | _tools/run/helpers/helpers.js:780-784 | a missing `_site/epub` stops the run at the zip; nothing after it is issued |
| Pipeline.MathjaxFailureStopsEpub | _tools/run/helpers/helpers.js:1247-1271 | a throwing MathJax test stops `epub()` there: `package.opf` is not copied, nothing is zipped, and the pipeline resolves |
| Pipeline.GluedConfigsStopEpub | _tools/run/helpers/helpers.js:1222-1271 | `--format epub --configs <c>` without a glued config file makes `epub()` stop at the MathJax test, before the zip |
| Pipeline.CordovaWorkDir | _tools/run/helpers/helpers.js:280-287 | the working directory is never empty: the given one, or `<cwd>/_site/app` |
| Pipeline.AppStages | _tools/run/helpers/helpers.js:1275-1306 | four preparation stages, then only Cordova calls, each catching its errors, and those iff `app-build` |
| Pipeline.AppCordovaCalls | _tools/run/helpers/helpers.js:1285-1299 | Cordova runs iff `app-build`; the build call gets `'--release'` as its working directory on a release |
| Pipeline.AppBuildNeverStops | _tools/run/helpers/helpers.js:1275-1306 | once the first stages resolve, the app run never stops |
| Pipeline.ExportWordStages | _tools/run/helpers/helpers.js:1309-1327 | the conversion is a stage; every other stage after clearing `_site` catches its errors |
| Pipeline.WordFailureHangsExport | _tools/run/helpers/helpers.js:1309-1327 | the export completes iff there are files and all convert; otherwise it never settles |
| Pipeline.WordFileListFailureStops | _tools/run/helpers/helpers.js:1323 | a throwing `htmlFilePaths` stops the export at the conversion |
| Pipeline.RefreshIndexesStages | _tools/run/helpers/helpers.js:1330-1354 | starts by clearing `_site`; every later stage catches its errors or is an index builder called without `await` |
| Pipeline.RefreshIndexesShape | _tools/run/helpers/helpers.js:1330-1354 | MathJax iff PDF or EPUB, a search index iff web or app, always a reference index |
| Pipeline.RefreshIndexesStops | _tools/run/helpers/helpers.js:1330-1354 | after `_site` is cleared, the run stops only at an index builder whose call throws; when neither call throws it never stops |
| Pipeline.PdfStopsOnlyAtPrince | _tools/run/helpers/helpers.js:1204-1219 | the PDF run stops at Prince iff Prince rejects, and then the output is never opened; otherwise it stops at `openOutputFile` iff no book is named (helpers.js:88-97 then normalizes `argv` itself, which throws), and else completes |
| RunScript.FileListDefaultsToWeb | run.js:256-258 | run.js's `fileList` defaults the format to `web` |
| RunScript.SameListAsHelpers | run.js:253-338 | given a format, run.js's cascade is the helpers' cascade |
| RunScript.FileList | run.js:253-338 | without a format, the cascade for the `web` lists; with one, the helpers' list for that format |
| RunScript.JoinedPaths | run.js:361-364 | one `<dir>/<entry>.html` per entry, in order, with no normalization |
| RunScript.FilePaths | run.js:341-367 | fails exactly when `fileList` throws; same length and order; element i is `<cwd>/_site/<book>[/<subdir>]/<entry>.html` |
| RunScript.FilePathNames | run.js:362-364 | the basename of each path is the entry's text; an object entry reads `[object Object]` |
| RunScript.AgreesWithHtmlFilePaths | run.js:341-367 | for named entries, normalizing run.js's path gives the helpers' path |
| RunScript.OutputFilename | run.js:213-229 | the name is the helpers' name with `subdir` in place of the language |
| RunScript.OutputFilenameAsHelpers | run.js:213-229 | run.js's name is the helpers' name with the subdir as language; `.epub` iff epub, else `.pdf` |
| RunScript.PrinceOutput | run.js:397 | the output path lies under `<cwd>/_output/` and ends in `.epub` iff the format is `epub`, else in `.pdf` |
| RunScript.PrinceOutputIgnoresFormat | run.js:397 | the output path does not depend on the format passed to `runPrince` |
| RunScript.NamedConfigs | run.js:110-117 | the names split out of `configFiles` hold no comma |
| RunScript.Configs | run.js:97-126 | the `+=` accumulation yields the string as written |
| RunScript.AppendListed | run.js:114-116 | the `forEach` appends `,_configs/<name>` for each name in turn |
| RunScript.ConfigsEnds | run.js:100-123 | starts with `_config.yml`; ends with the MathJax config when `argv.mathjax === true` |
| RunScript.ConfigPieces | run.js:97-126 | the intended list starts with `_config.yml` |
| RunScript.AsWrittenWithoutArgvConfigs | run.js:97-126 | without `--configs` the string as written equals the comma-joined intended list |
| RunScript.IntendedConfigsPieces | run.js:97-126 | the intended string splits back into exactly its pieces |
| RunScript.ConfigsPieces | run.js:110-123 | without `--configs`: `_config.yml`, one `_configs/<name>` per name in order, then the MathJax config, last iff `argv.mathjax === true` |
| RunScript.ArgvConfigGlued | run.js:103-107 | with `--configs`, neither `_config.yml` nor the extra file is a piece, and an empty piece appears |
| RunScript.GluedString | run.js:103-116 | the exact string as written for one extra config and one named config |
| RunScript.IntendedKeepsArgvConfig | run.js:103-107 | the intended list keeps the `--configs` file as a piece of its own |
| RunScript.Switches | run.js:448-478 | `--incremental ` iff `argv.incremental === true`; a truthy switches string throws a TypeError |
| RunScript.SwitchesFailExactlyWithSwitches | run.js:459-475 | called with no argument, `switches` throws iff `argv.switches` is truthy, even for `''` after stripping |
| RunScript.Callbacks | run.js:21-50 | at most one callback per event, and none without a callback |
| RunScript.CallbacksCountSettlements | run.js:36-50 | output events call nothing; an `error` then an `exit` call back twice |
| RunScript.Trace | run.js:428-439 | one action per callback delivered |
| RunScript.TraceShape | run.js:428-439 | only the first call renders MathJax, and only if not yet rendered; every later call runs Prince |
| RunScript.PrinceRunsPerCallback | run.js:190-211 | after Jekyll's callback renders MathJax, every further callback runs Prince |
| RunScript.GulpErrorThenExitRunsPrinceTwice | run.js:36-50 | a gulp `error` followed by `exit` runs Prince twice |
| RunScript.PdfTask.constructor | run.js:190 | the flag starts false and nothing has been started |
| RunScript.PdfTask.RenderMathjax | run.js:191-211 | starts the gulp MathJax process and sets the flag |
| RunScript.PdfTask.OutputPdf | run.js:428-439 | runs Prince when the flag is set, else renders MathJax; the flag is set afterwards |
| RunScript.PdfTask.Deliver | run.js:428-439 | n callbacks extend the started actions by exactly the trace, and set the flag iff any arrived |
| RunScript.TaskOutput | run.js:530-553 | PDF formats build with `_config.<format>.yml` and the `outputPDF` callback; `web` serves without one; other formats do nothing; any switches throw |
| RunScript.TaskConfigs | run.js:538 | a PDF format's config list is `_config.yml`, its format config, then MathJax iff `argv.mathjax === true` |
| Text.Split | run.js:114 | a split always has at least one piece |
| Text.SplitPiecesFree | run.js:114 | no piece contains the separator |
| Text.JoinSplit | _tools/run/helpers/helpers.js:263 | joining the pieces of a split restores the string |
| Text.SplitJoin | _tools/run/helpers/helpers.js:263 | splitting a join of separator-free pieces restores the pieces |
| Text.StripQuotes | _tools/run/helpers/helpers.js:160 | the result has no quote characters and is no longer than the input |
| Text.StripCharAppend | _tools/run/helpers/helpers.js:160 | removing one character distributes over concatenation |
| Text.StripQuotesAppend | _tools/run/helpers/helpers.js:160 | quote stripping distributes over concatenation, so the remaining characters keep their order |
| Text.StripQuotesChar | run.js:106 | a single character is dropped exactly when it is `'` or `"`, and kept otherwise |
| Text.StripQuotesIdempotent | _tools/run/helpers/helpers.js:160 | stripping quotes twice is stripping them once |
| Text.Normalize | _tools/run/helpers/helpers.js:610 | the normalized path has no repeated `/` |
| Text.NormalizeAppend | _tools/run/helpers/helpers.js:610-622 | normalizing a prefix first changes nothing about the final normalized path |
| Text.NormalizeIdempotent | _tools/run/helpers/helpers.js:610-622 | normalizing twice is normalizing once |
| Text.NormalizedBasename | _tools/run/helpers/helpers.js:1154 | the basename of a normalized `<dir>/<name><ext>` without `<ext>` is `<name>` |

## Left out

- Child processes are left out: spawning, stdout/stderr streaming, and the bodies of the gulp, Jekyll, Prince, pandoc, Cordova and epubchecker stages. Each stage is an outcome passed in (`Resolved`, `Rejected` or `Pending`), and each process is a sequence of events.
- YAML parsing and file reads become inputs: `yaml.load`, `readFileSync` and `projectSettings` are a map from path to parsed document plus an optional settings record.
- Names.MergedSetting: `configsObject`'s concatenation and `yaml.loadAll` are reduced to the `mathjax-enabled` value each config file sets, with a later file overriding an earlier one. The model assumes that `concatenate.sync` throws on a piece that names no file, and that no file holds a `---` document separator. A concatenation that loads to no document at all is not modelled.
- Text.Normalize: models `path.normalize` only as collapsing runs of `/`. `.` and `..` segments, trailing-slash rules and Windows separators are not modelled.
- File-system effects are left out: `fs.emptyDir`, `mkdir`, `copySync` contents, `moveSync`/`fs.move` in `assembleApp` and `epubZipRename`, and what `openOutputFile` opens. Of `openOutputFile` only whether its call throws is modelled; the `open` package is assumed not to throw before returning its promise. `addToEpub` is modelled down to which copy it issues, to where.
- Epub.EpubZip: leaves out the DEFLATE bytes and the JSZip stream with its `finish` event. The model stops at the ordered entry list with each entry's compression flag. JSZip also adds an entry for each folder on a file's path (its default `createFolders`); those directory entries are not modelled.
- `runPrince`'s licence lookup and `checkPrinceVersion` depend on `package.json` and the installed Prince, and are left out. Only the output path is modelled.
- `epubValidate` and `epubZipRename` appear as stages whose outcome is passed in.
- `buildReferenceIndex` and `buildSearchIndex` are not part of this model. They appear only as stages of `refreshIndexes`, and whether each call throws before returning its promise is an input.
- Left out as environment setup: `checkProjectSetup`/`checkExists`, `taskImages`, `taskInstall`, `installGems`, `installNodeModules`, `processImages` and `works`.
- WordExport.ConvertHtmlToWord: the pandoc callbacks are a sequence of success/failure outcomes in one order. Their timing and interleaving are not modelled. Clearing or creating the output folder is left out as I/O.
- Epub.AddToEpub: an exception thrown while copying one path is modelled as that path not being copied. The logging is left out.

## Findings

| source | as written | input that shows it | evidently intended | confidence | as-written member | corrected member |
|---|---|---|---|---|---|---|
| _tools/run/helpers/helpers.js:157-161 | `configString` appends `_configs/<configs>` with no leading comma | `--format print-pdf --configs extra.yml` gives `_config.yml,_configs/_config.print-pdf.yml_configs/extra.yml` | every config file separated by a comma, so that `configsObject`'s split finds `_configs/extra.yml` | high, not executed | JekyllConfig.ConfigsGluedToFormatConfig | JekyllConfig.IntendedConfigPieces |
| run.js:103-107 | `configs` appends `_configs/<configs>,` straight after `_config.yml`, and each named config brings its own leading comma | `--configs extra.yml` with `configs('_config.print-pdf.yml')` gives `_config.yml_configs/extra.yml,,_configs/_config.print-pdf.yml` | `_config.yml,_configs/extra.yml,_configs/_config.print-pdf.yml` | high, not executed | RunScript.ArgvConfigGlued | RunScript.IntendedConfigsPieces |

The corrected lists, `JekyllConfig.IntendedConfigString` and
`RunScript.IntendedConfigs`, carry the intended properties. Both are proved
to agree with the code whenever no `--configs` option is given
(`JekyllConfig.AsWrittenWithoutConfigs`,
`RunScript.AsWrittenWithoutArgvConfigs`). The models of `jekyll` and
`taskOutput` record the arguments the code actually spawns, so they keep
the string as written.

The first finding also reaches `epub()`. `mathjaxEnabled` reads every
piece of the string as written as a config file, so with `--format epub
--configs <c>` it must read `_configs/_config.epub.yml_configs/<c>`. When no
file has that name the test throws, and `epub()` stops before `package.opf`
is added and before the book is zipped (`Names.GluedConfigThrows`,
`Pipeline.GluedConfigsStopEpub`).
