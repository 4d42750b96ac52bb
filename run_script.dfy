/**
 * The older entry script `run.js`: its own file list and file paths, output
 * name, Jekyll config and switch strings, the callback-driven `logProcess`,
 * the `mathjaxRendered` flag that drives `outputPDF`, and the `output` task.
 */
module RunScript {
  import opened Js
  import opened Text
  import opened Metadata
  import Names
  import opened JekyllConfig

  // ---------------------------------------------------------------------------
  // fileList and filePaths

  /** `fileList(format)`: the same cascade as the helpers' version, with `web` as the fallback format. */
  function FileList(cwd: string, argv: Argv, format: Option<string>, settings: Option<Settings>, store: Store)
    : (r: Result<seq<FileEntry>>)
    ensures !Truthy(format) ==> r == Cascade("web", Request(cwd, argv.book, argv.language, Some("web")), settings, store)
    ensures Truthy(format) ==> r == Names.FileList(cwd, argv.(format := format), settings, store)
  {
    var req := Request(cwd, argv.book, argv.language, format);
    if !Truthy(format) then FallbackFormat("web", req, settings, store); Cascade("web", req, settings, store)
    else Cascade("web", req, settings, store)
  }

  /** With no format given, `fileList` reads the `web` lists. */
  lemma FileListDefaultsToWeb(cwd: string, argv: Argv, format: Option<string>, settings: Option<Settings>, store: Store)
    requires !Truthy(format)
    ensures FileList(cwd, argv, format, settings, store) == FileList(cwd, argv, Some("web"), settings, store)
  {
    FallbackFormat("web", Request(cwd, argv.book, argv.language, format), settings, store);
  }

  /** For a given format the two scripts pick the same list; they differ only in the fallback format. */
  lemma SameListAsHelpers(cwd: string, argv: Argv, settings: Option<Settings>, store: Store)
    requires Truthy(argv.format)
    ensures FileList(cwd, argv, argv.format, settings, store) == Names.FileList(cwd, argv, settings, store)
  {
  }

  /** `String(entry)`: a name as it is, an object entry as `[object Object]`. */
  function EntryText(e: FileEntry): string
  {
    match e
    case Name(n) => n
    case Titled(_, _) => "[object Object]"
  }

  /** `<cwd>/_site/<book>[/<subdir>]`, normalized; the book is not defaulted and the subdirectory is `subdir`, not the language. */
  function PathsDirectory(cwd: string, argv: Argv): string
  {
    Normalize(cwd + "/_site/" + ToStr(argv.book) + (if Truthy(argv.subdir) then "/" + argv.subdir.value else ""))
  }

  function JoinedPaths(dir: string, entries: seq<FileEntry>): (r: seq<string>)
    ensures |r| == |entries|
    ensures forall i :: 0 <= i < |entries| ==> r[i] == dir + "/" + EntryText(entries[i]) + ".html"
  {
    if entries == [] then [] else [dir + "/" + EntryText(entries[0]) + ".html"] + JoinedPaths(dir, entries[1..])
  }

  /** `filePaths(format)`: `<dir>/<entry>.html` for each entry of `fileList(format)`, in order; the entries are not normalized. */
  function FilePaths(cwd: string, argv: Argv, format: Option<string>, settings: Option<Settings>, store: Store)
    : (r: Result<seq<string>>)
    ensures r.Err? <==> FileList(cwd, argv, format, settings, store).Err?
    ensures r.Ok? ==>
      var files := FileList(cwd, argv, format, settings, store).value;
      |r.value| == |files|
      && forall i :: 0 <= i < |files| ==> r.value[i] == PathsDirectory(cwd, argv) + "/" + EntryText(files[i]) + ".html"
  {
    match FileList(cwd, argv, format, settings, store)
    case Err(e) => Err(e)
    case Ok(files) => Ok(JoinedPaths(PathsDirectory(cwd, argv), files))
  }

  /** The path's basename without `.html` is the entry's text: the bare name, or `[object Object]` for every object entry. */
  lemma FilePathNames(cwd: string, argv: Argv, format: Option<string>, settings: Option<Settings>, store: Store, i: nat)
    requires FilePaths(cwd, argv, format, settings, store).Ok?
    requires i < |FileList(cwd, argv, format, settings, store).value|
    ensures var e := FileList(cwd, argv, format, settings, store).value[i];
      var path := FilePaths(cwd, argv, format, settings, store).value[i];
      (e.Titled? || (e.name != "" && '/' !in e.name)) ==> Basename(path, ".html") == EntryText(e)
  {
    var e := FileList(cwd, argv, format, settings, store).value[i];
    var dir := PathsDirectory(cwd, argv);
    if e.Titled? || (e.name != "" && '/' !in e.name) {
      BasenameOfChild(dir, EntryText(e), ".html");
    }
  }

  /**
   * Where the two scripts agree: for a named book, a bare entry and a
   * subdirectory equal to the language, the run.js path normalizes to the
   * helpers' path.
   */
  lemma AgreesWithHtmlFilePaths(cwd: string, argv: Argv, settings: Option<Settings>, store: Store, i: nat)
    requires Truthy(argv.book) && Truthy(argv.format) && argv.subdir == argv.language
    requires FilePaths(cwd, argv, argv.format, settings, store).Ok?
    requires i < |FileList(cwd, argv, argv.format, settings, store).value|
    requires FileList(cwd, argv, argv.format, settings, store).value[i].Name?
    ensures Names.HtmlFilePaths(cwd, argv, settings, store, None).Ok?
    ensures Normalize(FilePaths(cwd, argv, argv.format, settings, store).value[i])
         == Names.HtmlFilePaths(cwd, argv, settings, store, None).value[i]
  {
    SameListAsHelpers(cwd, argv, settings, store);
    var e := FileList(cwd, argv, argv.format, settings, store).value[i];
    var site := Names.SiteDirectory(cwd, argv);
    assert site == cwd + "/_site/" + ToStr(argv.book) + (if Truthy(argv.subdir) then "/" + argv.subdir.value else "");
    assert PathsDirectory(cwd, argv) == Normalize(site);
    assert EntryText(e) == Names.EntryName(e);
    NormalizeUnder(site, EntryText(e), ".html");
  }

  /** Normalizing the directory before appending `/<name><ext>` does not change the normalized path. */
  lemma NormalizeUnder(site: string, name: string, ext: string)
    ensures Normalize(Normalize(site) + "/" + name + ext) == Normalize(site + "/" + name + ext)
  {
    var tail := "/" + name + ext;
    assert Normalize(site) + "/" + name + ext == Normalize(site) + tail;
    assert site + "/" + name + ext == site + tail;
    NormalizeAppend(site, tail);
  }

  // ---------------------------------------------------------------------------
  // outputFilename

  /** `outputFilename()`: `<book>[-<subdir>]-<format>` and `.epub` or `.pdf`; it reads only `argv`. */
  function OutputFilename(argv: Argv): (r: string)
    ensures r == Names.OutputFilename(argv.(language := argv.subdir))
  {
    var ext := if argv.format == Some("epub") then ".epub" else ".pdf";
    if Truthy(argv.subdir) then ToStr(argv.book) + "-" + argv.subdir.value + "-" + ToStr(argv.format) + ext
    else ToStr(argv.book) + "-" + ToStr(argv.format) + ext
  }

  /**
   * The run.js name is the helpers' name with `subdir` in place of the
   * language: `.epub` exactly for the `epub` format, `.pdf` otherwise.
   */
  lemma OutputFilenameAsHelpers(argv: Argv)
    ensures OutputFilename(argv) == Names.OutputFilename(argv.(language := argv.subdir))
    ensures EndsWith(OutputFilename(argv), ".epub") <==> argv.format == Some("epub")
    ensures argv.format != Some("epub") ==> EndsWith(OutputFilename(argv), ".pdf")
  {
    var a := argv.(language := argv.subdir);
    assert OutputFilename(argv) == Names.OutputFilename(a);
  }

  /**
   * `runPrince(format)` writes to `<cwd>/_output/<outputFilename()>`; the
   * format it was called with does not reach the name.
   */
  function PrinceOutput(cwd: string, argv: Argv, format: string): (r: string)
    ensures StartsWith(r, cwd + "/_output/")
    ensures EndsWith(r, ".epub") <==> argv.format == Some("epub")
    ensures argv.format != Some("epub") ==> EndsWith(r, ".pdf")
  {
    var n := OutputFilename(argv);
    var p := cwd + "/_output/" + n;
    OutputFilenameAsHelpers(argv);
    assert p[..|cwd + "/_output/"|] == cwd + "/_output/";
    assert EndsWith(n, ".epub") ==> p[|p| - 5..] == n[|n| - 5..];
    assert EndsWith(p, ".epub") && |n| >= 5 ==> n[|n| - 5..] == p[|p| - 5..];
    assert EndsWith(n, ".pdf") ==> p[|p| - 4..] == n[|n| - 4..];
    p
  }

  /** The format `runPrince` is called with does not reach the output path. */
  lemma PrinceOutputIgnoresFormat(cwd: string, argv: Argv, f1: string, f2: string)
    ensures PrinceOutput(cwd, argv, f1) == PrinceOutput(cwd, argv, f2)
    ensures EndsWith(PrinceOutput(cwd, argv, f1), ".epub") <==> argv.format == Some("epub")
  {
  }

  // ---------------------------------------------------------------------------
  // configs

  /** What `--configs` adds, as written: no comma before it and a comma after it. */
  function ArgvConfigPart(argv: Argv): string
  {
    if Truthy(argv.configs) then UnderConfig(StripQuotes(argv.configs.value)) + "," else ""
  }

  /** The names in `configFiles`; the `replace` that would strip spaces has its result dropped. */
  function NamedConfigs(configFiles: Option<string>): (r: seq<string>)
    ensures forall i :: 0 <= i < |r| ==> ',' !in r[i]
  {
    if Truthy(configFiles) then
      SplitPiecesFree(configFiles.value, ',');
      assert forall i :: 0 <= i < |Split(configFiles.value, ',')| ==> ',' !in Split(configFiles.value, ',')[i];
      Split(configFiles.value, ',')
    else []
  }

  /** The path of a config file under `_configs/`. */
  function UnderConfig(name: string): string
  {
    "_configs/" + name
  }

  /** What one name of `configFiles` appends: `,_configs/<name>`. */
  function Listed(name: string): (r: string)
    ensures r == [','] + UnderConfig(name)
  {
    ",_configs/" + name
  }

  /** `,_configs/<name>` for each name, in order. */
  function Prefixed(names: seq<string>): string
  {
    if names == [] then "" else Prefixed(names[..|names| - 1]) + Listed(names[|names| - 1])
  }

  function MathjaxPart(argv: Argv): string
  {
    if StrictTrue(argv.mathjax) then "," + MathjaxConfig else ""
  }

  function ConfigsSpec(argv: Argv, configFiles: Option<string>): string
  {
    DefaultConfig + ArgvConfigPart(argv) + Prefixed(NamedConfigs(configFiles)) + MathjaxPart(argv)
  }

  /** `configs(configFiles)`, which builds the string with `+=` in a `forEach`. */
  method Configs(argv: Argv, configFiles: Option<string>) returns (s: string)
    ensures s == ConfigsSpec(argv, configFiles)
  {
    s := DefaultConfig + ArgvConfigPart(argv);
    if Truthy(configFiles) {
      s := AppendListed(s, Split(configFiles.value, ','));
    }
    s := s + MathjaxPart(argv);
  }

  /** The `forEach` of `configs`: appends `,_configs/<name>` for each name in turn. */
  method AppendListed(head: string, names: seq<string>) returns (s: string)
    ensures s == head + Prefixed(names)
  {
    s := head;
    for i := 0 to |names|
      invariant s == head + Prefixed(names[..i])
    {
      assert names[..i + 1][..i] == names[..i];
      s := s + Listed(names[i]);
    }
    assert names[..|names|] == names;
  }

  /** The list always starts with `_config.yml` and ends with the MathJax config when `argv.mathjax === true`. */
  lemma ConfigsEnds(argv: Argv, configFiles: Option<string>)
    ensures StartsWith(ConfigsSpec(argv, configFiles), DefaultConfig)
    ensures StrictTrue(argv.mathjax) ==> EndsWith(ConfigsSpec(argv, configFiles), "," + MathjaxConfig)
  {
  }

  /** `_configs/<name>` for each name. */
  function UnderConfigs(names: seq<string>): (r: seq<string>)
    ensures |r| == |names|
  {
    if names == [] then [] else UnderConfigs(names[..|names| - 1]) + [UnderConfig(names[|names| - 1])]
  }

  /** Each path is its own name under `_configs/`. */
  lemma {:induction false} UnderConfigsAt(names: seq<string>)
    ensures forall i :: 0 <= i < |names| ==> UnderConfigs(names)[i] == UnderConfig(names[i])
  {
    if names != [] {
      var init := names[..|names| - 1];
      UnderConfigsAt(init);
      forall i | 0 <= i < |names|
        ensures UnderConfigs(names)[i] == UnderConfig(names[i])
      {
        if i < |init| {
          assert names[i] == init[i];
        }
      }
    }
  }

  /** Comma-free names give comma-free paths. */
  lemma UnderConfigsCommaFree(names: seq<string>)
    requires forall i :: 0 <= i < |names| ==> ',' !in names[i]
    ensures forall x :: x in UnderConfigs(names) ==> ',' !in x
  {
    UnderConfigsAt(names);
    forall x | x in UnderConfigs(names)
      ensures ',' !in x
    {
      var i :| 0 <= i < |names| && UnderConfigs(names)[i] == x;
      UnderConfigCommaFree(names[i]);
    }
  }

  /** `_configs/` adds no comma to a name. */
  lemma UnderConfigCommaFree(name: string)
    requires ',' !in name
    ensures ',' !in UnderConfig(name)
  {
    var p := "_configs/";
    assert ',' !in p;
  }

  /** Only the name `_config.mathjax-enabled.yml` lands on the MathJax config. */
  lemma UnderConfigIsMathjax(name: string)
    requires UnderConfig(name) == MathjaxConfig
    ensures name == "_config.mathjax-enabled.yml"
  {
    assert UnderConfig(name)[9..] == name;
    assert MathjaxConfig[9..] == "_config.mathjax-enabled.yml";
  }

  /** The config files the string is meant to list, in order. */
  function ConfigPieces(argv: Argv, configFiles: Option<string>): (r: seq<string>)
    ensures |r| >= 1 && r[0] == DefaultConfig
  {
    [DefaultConfig]
    + (if Truthy(argv.configs) then [UnderConfig(StripQuotes(argv.configs.value))] else [])
    + UnderConfigs(NamedConfigs(configFiles))
    + (if StrictTrue(argv.mathjax) then [MathjaxConfig] else [])
  }

  /** The evidently intended string: the pieces joined with commas. */
  function IntendedConfigs(argv: Argv, configFiles: Option<string>): string
  {
    Join(ConfigPieces(argv, configFiles), ',')
  }

  /** Appending `,_configs/<name>` per name joins one more piece per name. */
  lemma {:induction false} PrefixedJoins(parts: seq<string>, names: seq<string>)
    requires |parts| >= 1
    ensures Join(parts, ',') + Prefixed(names) == Join(parts + UnderConfigs(names), ',')
  {
    if names == [] {
      assert parts + UnderConfigs(names) == parts;
    } else {
      var init := names[..|names| - 1];
      var last := names[|names| - 1];
      PrefixedJoins(parts, init);
      JoinSnoc(parts + UnderConfigs(init), UnderConfig(last), ',');
      assert parts + UnderConfigs(names) == (parts + UnderConfigs(init)) + [UnderConfig(last)];
      assert Join(parts, ',') + Prefixed(names)
          == (Join(parts, ',') + Prefixed(init)) + [','] + UnderConfig(last);
    }
  }

  /** A joined head, then `,_configs/<name>` per name, then at most one more comma-separated piece. */
  lemma {:induction false} JoinedTail(head: string, names: seq<string>, more: seq<string>)
    requires |more| <= 1
    ensures head + Prefixed(names) + (if more == [] then "" else "," + more[0])
         == Join([head] + UnderConfigs(names) + more, ',')
  {
    PrefixedJoins([head], names);
    var front := [head] + UnderConfigs(names);
    if more == [] {
      assert front + more == front;
      assert head + Prefixed(names) + "" == head + Prefixed(names);
    } else {
      JoinSnoc(front, more[0], ',');
      assert more == [more[0]];
      assert head + Prefixed(names) + ("," + more[0]) == (head + Prefixed(names)) + [','] + more[0];
    }
  }

  /** Without `--configs` the string as written is the intended one. */
  lemma AsWrittenWithoutArgvConfigs(argv: Argv, configFiles: Option<string>)
    requires !Truthy(argv.configs)
    ensures ConfigsSpec(argv, configFiles) == IntendedConfigs(argv, configFiles)
  {
    var more := if StrictTrue(argv.mathjax) then [MathjaxConfig] else [];
    var names := NamedConfigs(configFiles);
    assert ConfigsSpec(argv, configFiles) == DefaultConfig + Prefixed(names) + (if more == [] then "" else "," + more[0]) by {
      assert ArgvConfigPart(argv) == "";
      assert DefaultConfig + "" == DefaultConfig;
    }
    assert ConfigPieces(argv, configFiles) == [DefaultConfig] + UnderConfigs(names) + more by {
      assert [DefaultConfig] + [] == [DefaultConfig];
    }
    JoinedTail(DefaultConfig, names, more);
  }

  /** The intended string splits back into its pieces when the `--configs` value has no comma. */
  lemma IntendedConfigsPieces(argv: Argv, configFiles: Option<string>)
    requires Truthy(argv.configs) ==> ',' !in argv.configs.value
    ensures Split(IntendedConfigs(argv, configFiles), ',') == ConfigPieces(argv, configFiles)
  {
    var p := ConfigPieces(argv, configFiles);
    ConfigPiecesCommaFree(argv, configFiles);
    forall i | 0 <= i < |p|
      ensures ',' !in p[i]
    {
      assert p[i] in p;
    }
    SplitJoin(p, ',');
  }

  /** No piece of the intended list holds a comma when the `--configs` value has none. */
  lemma ConfigPiecesCommaFree(argv: Argv, configFiles: Option<string>)
    requires Truthy(argv.configs) ==> ',' !in argv.configs.value
    ensures forall x :: x in ConfigPieces(argv, configFiles) ==> ',' !in x
  {
    var names := NamedConfigs(configFiles);
    UnderConfigsCommaFree(names);
    forall x | x in ConfigPieces(argv, configFiles)
      ensures ',' !in x
    {
      if Truthy(argv.configs) && x == UnderConfig(StripQuotes(argv.configs.value)) {
        var c := StripQuotes(argv.configs.value);
        assert forall j :: 0 <= j < |c| ==> c[j] in argv.configs.value;
      }
    }
  }

  /**
   * `configs` without `--configs`: after `_config.yml`, one `_configs/<name>`
   * per comma-separated name, in order, then the MathJax config, which is the
   * last piece exactly when `argv.mathjax === true` (unless the last name
   * is that config itself).
   */
  lemma ConfigsPieces(argv: Argv, configFiles: Option<string>)
    requires !Truthy(argv.configs)
    ensures var pieces := Split(ConfigsSpec(argv, configFiles), ',');
      pieces == [DefaultConfig] + UnderConfigs(NamedConfigs(configFiles))
                + (if StrictTrue(argv.mathjax) then [MathjaxConfig] else [])
    ensures var names := NamedConfigs(configFiles);
      var pieces := Split(ConfigsSpec(argv, configFiles), ',');
      (names == [] || names[|names| - 1] != "_config.mathjax-enabled.yml") ==>
        (pieces[|pieces| - 1] == MathjaxConfig <==> StrictTrue(argv.mathjax))
  {
    AsWrittenWithoutArgvConfigs(argv, configFiles);
    IntendedConfigsPieces(argv, configFiles);
    var names := NamedConfigs(configFiles);
    if !StrictTrue(argv.mathjax) && names != [] && names[|names| - 1] != "_config.mathjax-enabled.yml" {
      var last := names[|names| - 1];
      if UnderConfig(last) == MathjaxConfig {
        UnderConfigIsMathjax(last);
      }
    }
    if !StrictTrue(argv.mathjax) && names == [] {
      assert |DefaultConfig| != |MathjaxConfig|;
    }
  }

  /**
   * As written, `--configs` is glued to `_config.yml` and followed by a
   * comma, and the next piece brings its own comma: neither `_config.yml` nor
   * the extra config is a piece of the list, and an empty piece appears.
   */
  lemma ArgvConfigGlued(argv: Argv, c: string, f: string)
    requires argv.configs == Some(c) && c != "" && ',' !in c && '\'' !in c && '"' !in c
    requires f != "" && ',' !in f && f != c && !StrictTrue(argv.mathjax)
    ensures Split(ConfigsSpec(argv, Some(f)), ',') == [DefaultConfig + UnderConfig(c), "", UnderConfig(f)]
    ensures DefaultConfig !in Split(ConfigsSpec(argv, Some(f)), ',')
    ensures UnderConfig(c) !in Split(ConfigsSpec(argv, Some(f)), ',')
  {
    var a := DefaultConfig + UnderConfig(c);
    var b := UnderConfig(f);
    GluedString(argv, c, f);
    SplitTwoSeparators(a, b, ',');
    assert |DefaultConfig| < |a|;
    assert a[7] == '.' && UnderConfig(c)[7] == 's';
    assert UnderConfig(c)[9..] == c && b[9..] == f;
  }

  /** The string as written for an extra config `c` and one named config `f`. */
  lemma GluedString(argv: Argv, c: string, f: string)
    requires argv.configs == Some(c) && c != "" && '\'' !in c && '"' !in c
    requires f != "" && ',' !in f && !StrictTrue(argv.mathjax)
    ensures ConfigsSpec(argv, Some(f)) == (DefaultConfig + UnderConfig(c)) + [',', ','] + UnderConfig(f)
    ensures ',' !in c ==> ',' !in DefaultConfig + UnderConfig(c)
    ensures ',' !in UnderConfig(f)
  {
    StripAbsentChar(c, '\'');
    StripAbsentChar(c, '"');
    SplitWithoutSeparator(f, ',');
    assert NamedConfigs(Some(f)) == [f];
    assert Prefixed([f]) == Prefixed([]) + Listed(f);
  }

  /** The intended list keeps the `--configs` file as a piece of its own. */
  lemma IntendedKeepsArgvConfig(argv: Argv, configFiles: Option<string>)
    requires Truthy(argv.configs) && ',' !in argv.configs.value
    ensures UnderConfig(StripQuotes(argv.configs.value)) in Split(IntendedConfigs(argv, configFiles), ',')
  {
    IntendedConfigsPieces(argv, configFiles);
    assert ConfigPieces(argv, configFiles)[1] == UnderConfig(StripQuotes(argv.configs.value));
  }

  // ---------------------------------------------------------------------------
  // switches

  /** The string `switches` ends up testing: `switchesString += stripped` turns an undefined start into `undefined...`. */
  function SwitchesInput(argv: Argv, switchesString: Option<string>): Option<string>
  {
    if Truthy(argv.switches) then Some(ToStr(switchesString) + StripQuotes(argv.switches.value)) else switchesString
  }

  /**
   * `switches(switchesString)`: `--incremental ` when `argv.incremental ===
   * true`; any truthy string of switches reaches `forEach`, which strings do
   * not have, and throws.
   */
  method Switches(argv: Argv, switchesString: Option<string>) returns (r: Result<string>)
    ensures r.Err? <==> Truthy(SwitchesInput(argv, switchesString))
    ensures r.Err? ==> r.error == TypeError
    ensures r.Ok? ==> (r.value == "--incremental " <==> StrictTrue(argv.incremental))
    ensures r.Ok? ==> (r.value == "" <==> !StrictTrue(argv.incremental))
  {
    var jekyllSwitches := "";
    if StrictTrue(argv.incremental) {
      jekyllSwitches := jekyllSwitches + "--incremental ";
    }
    var input := switchesString;
    if Truthy(argv.switches) {
      input := Some(ToStr(input) + StripQuotes(argv.switches.value));
    }
    if Truthy(input) {
      // split and replace return new values that are dropped; forEach is not a string method
      return Err(TypeError);
    }
    return Ok(jekyllSwitches);
  }

  /**
   * At its call sites `switches()` gets no argument, so it throws exactly when
   * `--switches` is given, even as a value that is only quotes.
   */
  lemma SwitchesFailExactlyWithSwitches(argv: Argv)
    ensures Truthy(SwitchesInput(argv, None)) <==> Truthy(argv.switches)
    ensures argv.switches == Some("''") ==> Truthy(SwitchesInput(argv, None))
  {
    if Truthy(argv.switches) {
      assert |ToStr(None) + StripQuotes(argv.switches.value)| >= 9;
    }
  }

  // ---------------------------------------------------------------------------
  // logProcess

  /** What a spawned child emits. */
  datatype ChildEvent = Stdout(data: string) | Stderr(data: string) | Errored(error: string) | Exited(code: int)

  /** How often `logProcess(process, name, callback)` calls the callback: once per `error` and once per `exit`. */
  function Callbacks(events: seq<ChildEvent>, hasCallback: bool): (n: nat)
    ensures n <= |events|
    ensures !hasCallback ==> n == 0
  {
    if !hasCallback || events == [] then 0
    else Callbacks(events[..|events| - 1], true) + (if events[|events| - 1].Errored? || events[|events| - 1].Exited? then 1 else 0)
  }

  /** Output events never call back; a process that errors and then exits calls back twice. */
  lemma {:induction false} CallbacksCountSettlements(events: seq<ChildEvent>)
    ensures (forall i :: 0 <= i < |events| ==> events[i].Stdout? || events[i].Stderr?) ==> Callbacks(events, true) == 0
    ensures Callbacks(events + [Errored("ENOENT"), Exited(1)], true) == Callbacks(events, true) + 2
  {
    if events != [] {
      CallbacksCountSettlements(events[..|events| - 1]);
    }
    var e := events + [Errored("ENOENT"), Exited(1)];
    assert e[..|e| - 1] == events + [Errored("ENOENT")];
    assert (events + [Errored("ENOENT")])[..|events|] == events;
  }

  // ---------------------------------------------------------------------------
  // the mathjaxRendered flag and outputPDF

  /** What `outputPDF` starts: a gulp MathJax run or a Prince run. */
  datatype Action = GulpMathjax(args: seq<string>) | Prince(format: string)

  function MathjaxArgs(argv: Argv): seq<string>
  {
    if Truthy(argv.subdir) then ["mathjax", "--book", ToStr(argv.book), "--language", argv.subdir.value]
    else ["mathjax", "--book", ToStr(argv.book)]
  }

  /** `runPrince(argv.format)`: an undefined format becomes `print-pdf`. */
  function PrinceFormat(format: Option<string>): string
  {
    format.GetOr("print-pdf")
  }

  /** What one `outputPDF()` call starts, given the flag before the call. */
  function NextAction(argv: Argv, mathjaxRendered: bool): Action
  {
    if mathjaxRendered then Prince(PrinceFormat(argv.format)) else GulpMathjax(MathjaxArgs(argv))
  }

  /** What `n` successive `outputPDF()` calls start, from a given flag. */
  function Trace(argv: Argv, mathjaxRendered: bool, n: nat): (r: seq<Action>)
    ensures |r| == n
  {
    if n == 0 then [] else Trace(argv, mathjaxRendered, n - 1) + [NextAction(argv, mathjaxRendered || n > 1)]
  }

  /**
   * From a fresh flag, the first call renders MathJax (whether or not MathJax
   * is enabled) and every later call goes straight to Prince.
   */
  lemma {:induction false} TraceShape(argv: Argv, mathjaxRendered: bool, n: nat)
    ensures forall i :: 0 <= i < n ==>
      Trace(argv, mathjaxRendered, n)[i]
        == (if i == 0 && !mathjaxRendered then GulpMathjax(MathjaxArgs(argv)) else Prince(PrinceFormat(argv.format)))
  {
    if n > 0 {
      TraceShape(argv, mathjaxRendered, n - 1);
    }
  }

  /**
   * The PDF task after `jekyll(..., outputPDF)`: the Jekyll process's
   * callbacks and those of the gulp process started by the first one all
   * call `outputPDF`, so Prince runs once per callback after the first.
   */
  lemma PrinceRunsPerCallback(argv: Argv, jekyllEvents: seq<ChildEvent>, gulpEvents: seq<ChildEvent>)
    requires Callbacks(jekyllEvents, true) >= 1
    ensures var t := Trace(argv, false, Callbacks(jekyllEvents, true) + Callbacks(gulpEvents, true));
      t[0] == GulpMathjax(MathjaxArgs(argv))
      && forall i :: 1 <= i < |t| ==> t[i] == Prince(PrinceFormat(argv.format))
  {
    TraceShape(argv, false, Callbacks(jekyllEvents, true) + Callbacks(gulpEvents, true));
  }

  /** A MathJax run that errors and then exits makes Prince run twice. */
  lemma GulpErrorThenExitRunsPrinceTwice(argv: Argv)
    ensures var n := Callbacks([Exited(0)], true) + Callbacks([Errored("ENOENT"), Exited(1)], true);
      n == 3 && Trace(argv, false, n)[1] == Trace(argv, false, n)[2] == Prince(PrinceFormat(argv.format))
  {
    CallbacksCountSettlements([]);
    assert [] + [Errored("ENOENT"), Exited(1)] == [Errored("ENOENT"), Exited(1)];
    assert [Exited(0)][..0] == [];
    TraceShape(argv, false, 3);
  }

  /** The module-level `mathjaxRendered` flag of run.js with the processes it has started. */
  class PdfTask {
    const argv: Argv
    var mathjaxRendered: bool
    var started: seq<Action>

    constructor(argv: Argv)
      ensures this.argv == argv && !mathjaxRendered && started == []
    {
      this.argv := argv;
      mathjaxRendered := false;
      started := [];
    }

    /** `renderMathjax(callback)`: spawn gulp, then set the flag at once, before the process ends. */
    method RenderMathjax()
      modifies this
      ensures mathjaxRendered
      ensures started == old(started) + [GulpMathjax(MathjaxArgs(argv))]
    {
      started := started + [GulpMathjax(MathjaxArgs(argv))];
      mathjaxRendered := true;
    }

    /** `outputPDF()`: Prince once the flag is set, else MathJax with `outputPDF` as the callback. */
    method OutputPdf()
      modifies this
      ensures mathjaxRendered
      ensures started == old(started) + [NextAction(argv, old(mathjaxRendered))]
    {
      if mathjaxRendered {
        started := started + [Prince(PrinceFormat(argv.format))];
      } else {
        RenderMathjax();
      }
    }

    /** `n` process callbacks arriving one after another, each calling `outputPDF()`. */
    method Deliver(n: nat)
      modifies this
      ensures mathjaxRendered == (old(mathjaxRendered) || n > 0)
      ensures started == old(started) + Trace(argv, old(mathjaxRendered), n)
    {
      for i := 0 to n
        invariant mathjaxRendered == (old(mathjaxRendered) || i > 0)
        invariant started == old(started) + Trace(argv, old(mathjaxRendered), i)
      {
        OutputPdf();
      }
    }
  }

  // ---------------------------------------------------------------------------
  // taskOutput

  /** `spawn('bundle', ['exec', 'jekyll', ...])`, and whether `logProcess` gets a callback. */
  datatype JekyllSpawn = JekyllSpawn(args: seq<string>, callback: bool)

  function JekyllArgs(command: string, configs: string, baseurl: Option<string>, switches: string): seq<string>
  {
    ["exec", "jekyll", command, "--config", configs, "--baseurl", ToStr(baseurl), switches]
  }

  /** `_config.<format>.yml`, the config name `taskOutput` passes for a format. */
  function FormatConfigName(format: string): string
  {
    "_config." + format + ".yml"
  }

  predicate IsPdfFormat(format: Option<string>)
  {
    format == Some("print-pdf") || format == Some("screen-pdf")
  }

  /**
   * `taskOutput(format)`: the PDF formats build with their format config and
   * `outputPDF` as the callback, `web` serves with the web config and no
   * callback, any other format does nothing. A throwing `switches()` stops
   * it before Jekyll is spawned.
   */
  method TaskOutput(argv: Argv, format: Option<string>) returns (r: Result<Option<JekyllSpawn>>)
    ensures r.Err? <==> (IsPdfFormat(format) || format == Some("web")) && Truthy(argv.switches)
    ensures r.Err? ==> r.error == TypeError
    ensures r.Ok? && IsPdfFormat(format) ==>
      r.value == Some(JekyllSpawn(
        JekyllArgs("build", ConfigsSpec(argv, Some(FormatConfigName(format.value))), argv.baseurl,
                   if StrictTrue(argv.incremental) then "--incremental " else ""), true))
    ensures r.Ok? && format == Some("web") ==>
      r.value == Some(JekyllSpawn(
        JekyllArgs("serve", ConfigsSpec(argv, Some(FormatConfigName("web"))), argv.baseurl,
                   if StrictTrue(argv.incremental) then "--incremental " else ""), false))
    ensures !IsPdfFormat(format) && format != Some("web") ==> r == Ok(None)
  {
    SwitchesFailExactlyWithSwitches(argv);
    if IsPdfFormat(format) {
      var configs := Configs(argv, Some(FormatConfigName(format.value)));
      var switches := Switches(argv, None);
      if switches.Err? {
        return Err(switches.error);
      }
      return Ok(Some(JekyllSpawn(JekyllArgs("build", configs, argv.baseurl, switches.value), true)));
    }
    if format == Some("web") {
      var configs := Configs(argv, Some(FormatConfigName("web")));
      var switches := Switches(argv, None);
      if switches.Err? {
        return Err(switches.error);
      }
      return Ok(Some(JekyllSpawn(JekyllArgs("serve", configs, argv.baseurl, switches.value), false)));
    }
    return Ok(None);
  }

  /**
   * For a format without `--configs`, Jekyll gets `_config.yml`, the format's
   * config and, last, the MathJax config iff `argv.mathjax === true`.
   */
  lemma TaskConfigs(argv: Argv, format: string)
    requires ',' !in format && !Truthy(argv.configs)
    ensures Split(ConfigsSpec(argv, Some(FormatConfigName(format))), ',')
         == [DefaultConfig, FormatConfig(format)] + (if StrictTrue(argv.mathjax) then [MathjaxConfig] else [])
  {
    var name := FormatConfigName(format);
    assert NamedConfigs(Some(name)) == [name] by {
      SplitWithoutSeparator(name, ',');
    }
    assert UnderConfigs([name]) == [FormatConfig(format)] by {
      UnderFormatConfig(format);
    }
    ConfigsPieces(argv, Some(name));
  }

  /** The format's config name under `_configs/` is the format config of the Jekyll helpers. */
  lemma UnderFormatConfig(format: string)
    ensures UnderConfig(FormatConfigName(format)) == FormatConfig(format)
  {
  }
}
