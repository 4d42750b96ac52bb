/**
 * The path and name builders of the format pipelines: the content-file list
 * and its HTML paths, the artifact name, the MathJax switch and the asset
 * directories an EPUB is filled from.
 */
module Names {
  import opened Js
  import opened Text
  import opened Metadata
  import JekyllConfig

  /** `fileList(argv)`: the metadata cascade with `print-pdf` as the fallback format. */
  function FileList(cwd: string, argv: Argv, settings: Option<Settings>, store: Store): (r: Result<seq<FileEntry>>)
    ensures !Truthy(argv.format) ==>
      r == Cascade("print-pdf", Request(cwd, argv.book, argv.language, Some("print-pdf")), settings, store)
  {
    var req := Request(cwd, argv.book, argv.language, argv.format);
    if !Truthy(argv.format) then FallbackFormat("print-pdf", req, settings, store); Cascade("print-pdf", req, settings, store)
    else Cascade("print-pdf", req, settings, store)
  }

  /** With no format given, `fileList` reads the `print-pdf` lists. */
  lemma FileListDefaultsToPrintPdf(cwd: string, argv: Argv, settings: Option<Settings>, store: Store)
    requires !Truthy(argv.format)
    ensures FileList(cwd, argv, settings, store)
         == FileList(cwd, argv.(format := Some("print-pdf")), settings, store)
  {
    FallbackFormat("print-pdf", Request(cwd, argv.book, argv.language, argv.format), settings, store);
  }

  /** The name a file entry contributes to a path: the string, or the first key of an object. */
  function EntryName(e: FileEntry): string
  {
    match e
    case Name(n) => n
    case Titled(k, _) => k
  }

  /** `<cwd>/_site/<book>[/<language>]`, before normalization. */
  function SiteDirectory(cwd: string, argv: Argv): string
  {
    cwd + "/_site/" + OrElse(argv.book, "book") + (if Truthy(argv.language) then "/" + argv.language.value else "")
  }

  /** Each entry as `<dir>/<name><ext>`, normalized, in order. */
  function PathsUnder(dir: string, entries: seq<FileEntry>, ext: string): seq<string>
  {
    seq(|entries|, i requires 0 <= i < |entries| => Normalize(dir + "/" + EntryName(entries[i]) + ext))
  }

  /**
   * `htmlFilePaths(argv, extension)`: the content files of the cascade as
   * paths `_site/<book>[/<language>]/<name><ext>` under the working directory,
   * in the same order; `ext` defaults to `.html` and `book` to `book`.
   */
  function HtmlFilePaths(cwd: string, argv: Argv, settings: Option<Settings>, store: Store, extension: Option<string>)
    : (r: Result<seq<string>>)
    ensures r.Err? <==> FileList(cwd, argv, settings, store).Err?
    ensures r.Ok? ==>
      var files := FileList(cwd, argv, settings, store).value;
      |r.value| == |files|
      && forall i :: 0 <= i < |files| ==>
           r.value[i] == Normalize(SiteDirectory(cwd, argv) + "/" + EntryName(files[i]) + OrElse(extension, ".html"))
  {
    match FileList(cwd, argv, settings, store)
    case Err(e) => Err(e)
    case Ok(files) =>
      var dir := SiteDirectory(cwd, argv);
      var ext := OrElse(extension, ".html");
      var paths := PathsUnder(Normalize(dir), files, ext);
      assert forall i :: 0 <= i < |files| ==> paths[i] == Normalize(dir + "/" + EntryName(files[i]) + ext) by {
        forall i | 0 <= i < |files|
          ensures paths[i] == Normalize(dir + "/" + EntryName(files[i]) + ext)
        {
          var tail := "/" + EntryName(files[i]) + ext;
          assert Normalize(dir) + "/" + EntryName(files[i]) + ext == Normalize(dir) + tail;
          assert dir + "/" + EntryName(files[i]) + ext == dir + tail;
          NormalizeAppend(dir, tail);
        }
      }
      Ok(paths)
  }

  /** The entry names can be read back from the paths: each is the path's basename without the extension. */
  lemma HtmlFilePathNames(cwd: string, argv: Argv, settings: Option<Settings>, store: Store, extension: Option<string>, i: nat)
    requires HtmlFilePaths(cwd, argv, settings, store, extension).Ok?
    requires i < |FileList(cwd, argv, settings, store).value|
    requires var name := EntryName(FileList(cwd, argv, settings, store).value[i]);
      name != "" && '/' !in name
    requires '/' !in OrElse(extension, ".html")
    ensures var ext := OrElse(extension, ".html");
      Basename(HtmlFilePaths(cwd, argv, settings, store, extension).value[i], ext)
        == EntryName(FileList(cwd, argv, settings, store).value[i])
  {
    var ext := OrElse(extension, ".html");
    var name := EntryName(FileList(cwd, argv, settings, store).value[i]);
    NormalizedBasename(SiteDirectory(cwd, argv), name, ext);
  }

  /** `.epub` when the format is exactly `epub`, `.pdf` for everything else. */
  function Extension(format: Option<string>): (e: string)
    ensures e == ".epub" <==> format == Some("epub")
  {
    if format == Some("epub") then ".epub" else ".pdf"
  }

  /**
   * `outputFilename(argv)`: `<book>[-<language>]-<format>` and the extension;
   * a missing book or format reads as `undefined`.
   */
  function OutputFilename(argv: Argv): (r: string)
    ensures EndsWith(r, ".epub") <==> argv.format == Some("epub")
    ensures argv.format != Some("epub") ==> EndsWith(r, ".pdf")
    ensures Truthy(argv.language) ==>
      r == ToStr(argv.book) + "-" + argv.language.value + "-" + ToStr(argv.format) + Extension(argv.format)
    ensures !Truthy(argv.language) ==> r == ToStr(argv.book) + "-" + ToStr(argv.format) + Extension(argv.format)
  {
    var stem :=
      if Truthy(argv.language) then ToStr(argv.book) + "-" + argv.language.value + "-" + ToStr(argv.format)
      else ToStr(argv.book) + "-" + ToStr(argv.format);
    var r := stem + Extension(argv.format);
    assert r[|r| - |Extension(argv.format)|..] == Extension(argv.format);
    assert r[|r| - 1] == (if argv.format == Some("epub") then 'b' else 'f');
    r
  }

  // ---------------------------------------------------------------------------
  // configsObject and mathjaxEnabled

  /**
   * The config files `concatenate.sync` can read, by the name it is given,
   * each with the `mathjax-enabled` value it sets (`None` when it does not
   * set the key).
   */
  type ConfigStore = map<string, Option<Flag>>

  /**
   * `configsObject(argv)['mathjax-enabled']` over the files `pieces`, read in
   * order: the first piece that names no file makes the read throw; otherwise
   * the files load as one document in which a later key overrides an earlier
   * one. `None` is a key no file sets, which reads as `undefined`.
   */
  function MergedSetting(pieces: seq<string>, configs: ConfigStore): Result<Option<Flag>>
  {
    if pieces == [] then Ok(None)
    else
      var last := pieces[|pieces| - 1];
      match MergedSetting(pieces[..|pieces| - 1], configs)
      case Err(e) => Err(e)
      case Ok(earlier) =>
        if last !in configs then Err(NoSuchFile(last))
        else if configs[last].Some? then Ok(configs[last])
        else Ok(earlier)
  }

  /** The read fails exactly when some piece names no file, and then with the first such piece. */
  lemma {:induction false} MergedSettingFails(pieces: seq<string>, configs: ConfigStore)
    ensures MergedSetting(pieces, configs).Err? <==> exists i :: 0 <= i < |pieces| && pieces[i] !in configs
    ensures MergedSetting(pieces, configs).Err? ==>
      exists i :: 0 <= i < |pieces| && pieces[i] !in configs
        && MergedSetting(pieces, configs).error == NoSuchFile(pieces[i])
        && forall j :: 0 <= j < i ==> pieces[j] in configs
  {
    if pieces != [] {
      var front := pieces[..|pieces| - 1];
      MergedSettingFails(front, configs);
      assert forall i :: 0 <= i < |front| ==> front[i] == pieces[i];
    }
  }

  /** When every piece names a file, the last file that sets the key decides its value. */
  lemma {:induction false} LastSettingWins(pieces: seq<string>, configs: ConfigStore, k: nat)
    requires forall i :: 0 <= i < |pieces| ==> pieces[i] in configs
    requires k < |pieces| && configs[pieces[k]].Some?
    requires forall j :: k < j < |pieces| ==> configs[pieces[j]].None?
    ensures MergedSetting(pieces, configs) == Ok(configs[pieces[k]])
  {
    var front := pieces[..|pieces| - 1];
    if k < |pieces| - 1 {
      LastSettingWins(front, configs, k);
    } else {
      MergedSettingFails(front, configs);
    }
  }

  /** When every piece names a file and none sets the key, the value is `undefined`. */
  lemma {:induction false} NoSetting(pieces: seq<string>, configs: ConfigStore)
    requires forall i :: 0 <= i < |pieces| ==> pieces[i] in configs && configs[pieces[i]].None?
    ensures MergedSetting(pieces, configs) == Ok(None)
  {
    if pieces != [] {
      NoSetting(pieces[..|pieces| - 1], configs);
    }
  }

  /** The pieces `configsObject` splits out of `configString(argv)`. */
  function ConfigPieces(argv: Argv): seq<string>
  {
    Split(JekyllConfig.ConfigStringSpec(argv), ',')
  }

  /**
   * `mathjaxEnabled(argv)`: on when the `--mathjax` option is truthy or when
   * the merged Jekyll config sets `mathjax-enabled` to the boolean `true`.
   * The config is read first, so a config file that cannot be read makes it
   * throw whatever the option says.
   */
  function MathjaxEnabled(argv: Argv, configs: ConfigStore): (r: Result<bool>)
    ensures r.Ok? && FlagTruthy(argv.mathjax) ==> r.value
    ensures r.Err? <==> exists i :: 0 <= i < |ConfigPieces(argv)| && ConfigPieces(argv)[i] !in configs
  {
    MergedSettingFails(ConfigPieces(argv), configs);
    match MergedSetting(ConfigPieces(argv), configs)
    case Err(e) => Err(e)
    case Ok(value) => Ok(FlagTruthy(argv.mathjax) || value == Some(Bool(true)))
  }

  /**
   * With every config file present, MathJax is on exactly when the option is
   * truthy or the last file that sets `mathjax-enabled` sets it to the
   * boolean `true`; a string `'true'` does not count.
   */
  lemma MathjaxFromLastSetting(argv: Argv, configs: ConfigStore, k: nat)
    requires forall i :: 0 <= i < |ConfigPieces(argv)| ==> ConfigPieces(argv)[i] in configs
    requires k < |ConfigPieces(argv)| && configs[ConfigPieces(argv)[k]].Some?
    requires forall j :: k < j < |ConfigPieces(argv)| ==> configs[ConfigPieces(argv)[j]].None?
    ensures MathjaxEnabled(argv, configs)
         == Ok(FlagTruthy(argv.mathjax) || configs[ConfigPieces(argv)[k]] == Some(Bool(true)))
  {
    LastSettingWins(ConfigPieces(argv), configs, k);
  }

  /** With every config file present and none setting the key, only the option turns MathJax on. */
  lemma MathjaxWithoutSetting(argv: Argv, configs: ConfigStore)
    requires forall i :: 0 <= i < |ConfigPieces(argv)| ==>
      ConfigPieces(argv)[i] in configs && configs[ConfigPieces(argv)[i]].None?
    ensures MathjaxEnabled(argv, configs) == Ok(FlagTruthy(argv.mathjax))
  {
    NoSetting(ConfigPieces(argv), configs);
  }

  /**
   * On a Word export the math-disabled config is read last, so when it sets
   * `mathjax-enabled` it overrides every other file: with it set to `false`,
   * only the `--mathjax` option turns MathJax on.
   */
  lemma WordExportMathDisabled(argv: Argv, configs: ConfigStore)
    requires JekyllConfig.WordExport(argv)
    requires forall i :: 0 <= i < |ConfigPieces(argv)| ==> ConfigPieces(argv)[i] in configs
    requires JekyllConfig.MathDisabledConfig in configs
    requires configs[JekyllConfig.MathDisabledConfig] == Some(Bool(false))
    ensures MathjaxEnabled(argv, configs) == Ok(FlagTruthy(argv.mathjax))
  {
    var pieces := ConfigPieces(argv);
    JekyllConfig.LastPieceOnWordExport(argv);
    LastSettingWins(pieces, configs, |pieces| - 1);
  }

  /**
   * `mathjaxEnabled` with `--format <f> --configs <c>` (and neither MathJax
   * nor Word configs): the piece it must read is the format config with the
   * extra file glued on, which names no file in a usual project, so the call
   * throws even though `_config.yml` exists.
   */
  lemma GluedConfigThrows(argv: Argv, configs: ConfigStore, f: string, c: string)
    requires argv.format == Some(f) && f != "" && ',' !in f
    requires argv.configs == Some(c) && c != "" && ',' !in c && '\'' !in c && '"' !in c
    requires !FlagTruthy(argv.mathjax) && !JekyllConfig.WordExport(argv)
    requires JekyllConfig.DefaultConfig in configs
    requires JekyllConfig.FormatConfig(f) + ("_configs/" + c) !in configs
    ensures MathjaxEnabled(argv, configs) == Err(NoSuchFile(JekyllConfig.FormatConfig(f) + ("_configs/" + c)))
  {
    JekyllConfig.ConfigsGluedToFormatConfig(argv, f, c);
    var pieces := ConfigPieces(argv);
    assert pieces[..1] == [JekyllConfig.DefaultConfig];
    MergedSettingFails(pieces[..1], configs);
  }

  /** `renderMathjax` tests `mathjaxEnabled(argv) || argv.mathjax`; the second test adds nothing. */
  lemma RenderMathjaxTest(argv: Argv, configs: ConfigStore)
    requires MathjaxEnabled(argv, configs).Ok?
    ensures (MathjaxEnabled(argv, configs).value || FlagTruthy(argv.mathjax)) == MathjaxEnabled(argv, configs).value
  {
  }

  /** A config value `'true'` written as a string does not turn MathJax on; a non-empty option string does. */
  lemma MathjaxTextValues(argv: Argv, configs: ConfigStore, k: nat)
    requires forall i :: 0 <= i < |ConfigPieces(argv)| ==> ConfigPieces(argv)[i] in configs
    requires k < |ConfigPieces(argv)| && configs[ConfigPieces(argv)[k]] == Some(Text("true"))
    requires forall j :: k < j < |ConfigPieces(argv)| ==> configs[ConfigPieces(argv)[j]].None?
    ensures MathjaxEnabled(argv, configs) == Ok(FlagTruthy(argv.mathjax))
    ensures MathjaxEnabled(argv.(mathjax := Text("false")), configs).Ok? ==> MathjaxEnabled(argv.(mathjax := Text("false")), configs).value
  {
    MathjaxFromLastSetting(argv, configs, k);
  }

  // ---------------------------------------------------------------------------
  // bookAssetPaths

  /** The book folder of an asset lookup: the `folder` argument, else the book, else `book`. */
  function AssetBook(argv: Argv, folder: Option<string>): string
  {
    if Truthy(folder) then folder.value else OrElse(argv.book, "book")
  }

  /** `_site/<book>[/<language>]/<assetType>/<subdirectory>`, normalized; images have a per-format subdirectory. */
  function AssetDirectory(cwd: string, argv: Argv, assetType: string, folder: Option<string>, translated: bool): string
  {
    var sub := if assetType == "images" then ToStr(argv.format) else "";
    if translated then
      Normalize(cwd + "/_site/" + AssetBook(argv, folder) + "/" + ToStr(argv.language) + "/" + assetType + "/" + sub)
    else
      Normalize(cwd + "/_site/" + AssetBook(argv, folder) + "/" + assetType + "/" + sub)
  }

  function ListingPaths(dir: string, names: seq<string>): (r: seq<string>)
    ensures |r| == |names|
    ensures forall i :: 0 <= i < |names| ==> r[i] == Normalize(dir + "/" + names[i])
  {
    if names == [] then [] else [Normalize(dir + "/" + names[0])] + ListingPaths(dir, names[1..])
  }

  /**
   * `bookAssetPaths(argv, assetType, folder)` over directory listings `dirs`
   * (path to names in readdir order). With a language set only the translated
   * directory is considered: when it is missing `readdirSync` throws, and when
   * it is empty the parent path was never computed, so `readdirSync(undefined)`
   * throws.
   */
  function BookAssetPaths(cwd: string, argv: Argv, assetType: string, folder: Option<string>, dirs: map<string, seq<string>>)
    : (r: Result<seq<string>>)
    ensures
      var dir := AssetDirectory(cwd, argv, assetType, folder, Truthy(argv.language));
      (r.Ok? <==> dir in dirs && (Truthy(argv.language) ==> |dirs[dir]| > 0))
      && (r.Ok? ==> |r.value| == |dirs[dir]|
                    && forall i :: 0 <= i < |r.value| ==> r.value[i] == Normalize(dir + "/" + dirs[dir][i]))
    ensures
      var translated := AssetDirectory(cwd, argv, assetType, folder, true);
      Truthy(argv.language) && translated in dirs && dirs[translated] == [] ==> r == Err(TypeError)
  {
    if Truthy(argv.language) then
      var translated := AssetDirectory(cwd, argv, assetType, folder, true);
      if translated !in dirs then Err(NoSuchFile(translated))
      else if |dirs[translated]| > 0 then Ok(ListingPaths(translated, dirs[translated]))
      else Err(TypeError)
    else
      var parent := AssetDirectory(cwd, argv, assetType, folder, false);
      if parent !in dirs then Err(NoSuchFile(parent))
      else Ok(ListingPaths(parent, dirs[parent]))
  }

  /** With a language set, the parent asset directory never matters, even when the translated one is empty. */
  lemma NoParentAssetFallback(
    cwd: string, argv: Argv, assetType: string, folder: Option<string>, dirs: map<string, seq<string>>, listing: seq<string>)
    requires Truthy(argv.language)
    requires AssetDirectory(cwd, argv, assetType, folder, false) != AssetDirectory(cwd, argv, assetType, folder, true)
    ensures
      var parent := AssetDirectory(cwd, argv, assetType, folder, false);
      BookAssetPaths(cwd, argv, assetType, folder, dirs)
        == BookAssetPaths(cwd, argv, assetType, folder, dirs[parent := listing])
  {
  }
}
