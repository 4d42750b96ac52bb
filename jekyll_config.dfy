/**
 * The Jekyll invocation of the format pipelines: the comma-separated list of
 * config files (`configString`), the extra command-line switches
 * (`jekyllSwitches`) and the `bundle exec jekyll` call built from them.
 */
module JekyllConfig {
  import opened Js
  import opened Text

  const DefaultConfig := "_config.yml"
  const MathjaxConfig := "_configs/_config.mathjax-enabled.yml"
  const MathDisabledConfig := "_configs/_config.math-disabled.yml"

  /** The config file of a format, `_configs/_config.<format>.yml`. */
  function FormatConfig(format: string): string
  {
    "_configs/_config." + format + ".yml"
  }

  /** The `--configs` option with the quotes a shell user may have typed around it removed. */
  function ExtraConfig(argv: Argv): string
    requires Truthy(argv.configs)
  {
    "_configs/" + StripQuotes(argv.configs.value)
  }

  /** `argv._[0] === 'export' && argv['export-format'] === 'word'`. */
  predicate WordExport(argv: Argv)
  {
    argv.command == Some("export") && argv.exportFormat == Some("word")
  }

  // ---------------------------------------------------------------------------
  // configString, as written

  /** The config files named by the options, each present or absent: at most one file each. */
  function FormatFiles(argv: Argv): (r: seq<string>)
    ensures |r| <= 1
  {
    if Truthy(argv.format) then [FormatConfig(argv.format.value)] else []
  }

  function ExtraFiles(argv: Argv): (r: seq<string>)
    ensures |r| <= 1
  {
    if Truthy(argv.configs) then [ExtraConfig(argv)] else []
  }

  function MathjaxFiles(argv: Argv): (r: seq<string>)
    ensures |r| <= 1
  {
    if FlagTruthy(argv.mathjax) then [MathjaxConfig] else []
  }

  function WordFiles(argv: Argv): (r: seq<string>)
    ensures |r| <= 1
  {
    if WordExport(argv) then [MathDisabledConfig] else []
  }

  /** A file of at most one, preceded by a comma. */
  function CommaThen(files: seq<string>): string
    requires |files| <= 1
  {
    if files == [] then "" else "," + files[0]
  }

  /** A file of at most one, glued on without a separator. */
  function Glued(files: seq<string>): string
    requires |files| <= 1
  {
    if files == [] then "" else files[0]
  }

  /**
   * The string `configString(argv)` builds: the default config, then a
   * `,`-prefixed format config, then the `--configs` file WITHOUT a separating
   * comma, then the MathJax and math-disabled configs, each `,`-prefixed.
   */
  function ConfigStringSpec(argv: Argv): string
  {
    DefaultConfig + CommaThen(FormatFiles(argv)) + Glued(ExtraFiles(argv))
    + CommaThen(MathjaxFiles(argv)) + CommaThen(WordFiles(argv))
  }

  /** The string as written always starts with the default config. */
  lemma ConfigStringStart(argv: Argv)
    ensures StartsWith(ConfigStringSpec(argv), DefaultConfig)
  {
    var s1 := DefaultConfig + CommaThen(FormatFiles(argv));
    var s2 := s1 + Glued(ExtraFiles(argv));
    var s3 := s2 + CommaThen(MathjaxFiles(argv));
    StartsWithAppend(DefaultConfig, CommaThen(FormatFiles(argv)));
    StartsWithExtend(s1, DefaultConfig, Glued(ExtraFiles(argv)));
    StartsWithExtend(s2, DefaultConfig, CommaThen(MathjaxFiles(argv)));
    StartsWithExtend(s3, DefaultConfig, CommaThen(WordFiles(argv)));
  }

  /** On a Word export the string as written ends with the math-disabled config. */
  lemma ConfigStringEnd(argv: Argv)
    requires WordExport(argv)
    ensures EndsWith(ConfigStringSpec(argv), "," + MathDisabledConfig)
  {
    var front := DefaultConfig + CommaThen(FormatFiles(argv)) + Glued(ExtraFiles(argv)) + CommaThen(MathjaxFiles(argv));
    assert CommaThen(WordFiles(argv)) == "," + MathDisabledConfig;
    EndsWithAppend(front, "," + MathDisabledConfig);
  }

  /** `configString(argv)`, accumulating the list with `+=`. */
  method ConfigString(argv: Argv) returns (s: string)
    ensures s == ConfigStringSpec(argv)
  {
    s := DefaultConfig;
    if Truthy(argv.format) {
      s := s + ("," + FormatConfig(argv.format.value));
    }
    assert s == DefaultConfig + CommaThen(FormatFiles(argv));
    ghost var before := s;
    if Truthy(argv.configs) {
      s := s + ExtraConfig(argv);
    }
    assert s == before + Glued(ExtraFiles(argv));
    before := s;
    if FlagTruthy(argv.mathjax) {
      s := s + ("," + MathjaxConfig);
    }
    assert s == before + CommaThen(MathjaxFiles(argv));
    before := s;
    if WordExport(argv) {
      s := s + ("," + MathDisabledConfig);
    }
    assert s == before + CommaThen(WordFiles(argv));
  }

  // ---------------------------------------------------------------------------
  // configString, as evidently intended: one list of file names joined by commas

  /** The config files a build is meant to load, in order. */
  function ConfigFiles(argv: Argv): (r: seq<string>)
    ensures |r| >= 1 && r[0] == DefaultConfig
    ensures Truthy(argv.configs) ==> ExtraConfig(argv) in r
    ensures WordExport(argv) ==> r[|r| - 1] == MathDisabledConfig
  {
    [DefaultConfig] + FormatFiles(argv) + ExtraFiles(argv) + MathjaxFiles(argv) + WordFiles(argv)
  }

  /** The intended `configString`: every config file separated by a comma. */
  function IntendedConfigString(argv: Argv): string
  {
    Join(ConfigFiles(argv), ',')
  }

  /** The option values contribute no commas of their own. */
  predicate CommaFreeOptions(argv: Argv)
  {
    (argv.format.Some? ==> ',' !in argv.format.value)
    && (argv.configs.Some? ==> ',' !in StripQuotes(argv.configs.value))
  }

  /** Splitting the intended string on commas, as `configsObject` does, gives back exactly the config files. */
  lemma IntendedConfigPieces(argv: Argv)
    requires CommaFreeOptions(argv)
    ensures Split(IntendedConfigString(argv), ',') == ConfigFiles(argv)
  {
    var files := ConfigFiles(argv);
    ConfigFilesCommaFree(argv);
    forall i | 0 <= i < |files|
      ensures ',' !in files[i]
    {
      assert files[i] in files;
    }
    SplitJoin(files, ',');
  }

  /** No config file of the list holds a comma when the options hold none. */
  lemma ConfigFilesCommaFree(argv: Argv)
    requires CommaFreeOptions(argv)
    ensures forall x :: x in ConfigFiles(argv) ==> ',' !in x
  {
    forall x | x in ConfigFiles(argv)
      ensures ',' !in x
    {
      assert x == DefaultConfig || x in FormatFiles(argv) || x in ExtraFiles(argv)
        || x in MathjaxFiles(argv) || x in WordFiles(argv);
      if x in FormatFiles(argv) {
        FormatConfigCommaFree(argv.format.value);
      }
    }
  }

  /** A format config names the math-disabled file only for the format `math-disabled`. */
  lemma FormatConfigInjective(v: string)
    requires FormatConfig(v) == MathDisabledConfig
    ensures v == "math-disabled"
  {
    var fc := FormatConfig(v);
    assert fc[17..|fc| - 4] == v;
    assert MathDisabledConfig[17..|MathDisabledConfig| - 4] == "math-disabled";
  }

  /**
   * In the intended list the math-disabled config is the last file exactly
   * when the command is a Word export (unless some option names that very
   * file itself).
   */
  lemma MathDisabledLastIffWordExport(argv: Argv)
    requires CommaFreeOptions(argv)
    requires argv.format != Some("math-disabled")
    requires Truthy(argv.configs) ==> ExtraConfig(argv) != MathDisabledConfig
    ensures var pieces := Split(IntendedConfigString(argv), ',');
      pieces[|pieces| - 1] == MathDisabledConfig <==> WordExport(argv)
  {
    IntendedConfigPieces(argv);
    LastConfigFile(argv);
  }

  /**
   * The string the code builds has the same property: its last piece is
   * the math-disabled config exactly on a Word export. Without a Word export
   * the last piece is the MathJax config, a format config, `_config.yml`, or
   * one of the last two with the `--configs` file glued on, and a glued piece
   * holds a second `/`.
   */
  lemma MathDisabledLastAsWritten(argv: Argv)
    requires CommaFreeOptions(argv)
    requires argv.format != Some("math-disabled")
    requires Truthy(argv.configs) ==> ExtraConfig(argv) != MathDisabledConfig
    ensures var pieces := Split(ConfigStringSpec(argv), ',');
      pieces[|pieces| - 1] == MathDisabledConfig <==> WordExport(argv)
  {
    var s := ConfigStringSpec(argv);
    var front := DefaultConfig + CommaThen(FormatFiles(argv)) + Glued(ExtraFiles(argv));
    if WordExport(argv) {
      LastPieceOnWordExport(argv);
    } else if FlagTruthy(argv.mathjax) {
      LastPieceWithMathjax(argv);
      assert MathjaxConfig[24] != MathDisabledConfig[24];
    } else {
      assert CommaThen(MathjaxFiles(argv)) == "" && CommaThen(WordFiles(argv)) == "";
      assert s == front;
      assert DefaultConfig[8] != MathDisabledConfig[8];
      LastPieceWithoutOptionals(DefaultConfig, argv);
    }
  }

  /** On a Word export the last piece of the string as written is the math-disabled config. */
  lemma LastPieceOnWordExport(argv: Argv)
    requires WordExport(argv)
    ensures var pieces := Split(ConfigStringSpec(argv), ','); pieces[|pieces| - 1] == MathDisabledConfig
  {
    var front := DefaultConfig + CommaThen(FormatFiles(argv)) + Glued(ExtraFiles(argv)) + CommaThen(MathjaxFiles(argv));
    assert CommaThen(WordFiles(argv)) == "," + MathDisabledConfig;
    ConfigNamesCommaFree();
    LastPieceAfterComma(front, CommaThen(WordFiles(argv)), MathDisabledConfig);
  }

  /** Without a Word export but with `--mathjax`, the last piece as written is the MathJax config. */
  lemma LastPieceWithMathjax(argv: Argv)
    requires !WordExport(argv) && FlagTruthy(argv.mathjax)
    ensures var pieces := Split(ConfigStringSpec(argv), ','); pieces[|pieces| - 1] == MathjaxConfig
  {
    var front := DefaultConfig + CommaThen(FormatFiles(argv)) + Glued(ExtraFiles(argv));
    assert ConfigStringSpec(argv) == front + CommaThen(MathjaxFiles(argv)) by {
      assert CommaThen(WordFiles(argv)) == "";
    }
    assert CommaThen(MathjaxFiles(argv)) == "," + MathjaxConfig;
    ConfigNamesCommaFree();
    LastPieceAfterComma(front, CommaThen(MathjaxFiles(argv)), MathjaxConfig);
  }

  /** The fixed config names hold no comma. */
  lemma ConfigNamesCommaFree()
    ensures ',' !in DefaultConfig && ',' !in MathjaxConfig && ',' !in MathDisabledConfig
  {
  }

  /** A text ending in `,` and a comma-free file has that file as its last piece. */
  lemma LastPieceAfterComma(front: string, tail: string, file: string)
    requires tail == "," + file && ',' !in file
    ensures var pieces := Split(front + tail, ','); pieces[|pieces| - 1] == file
  {
    assert front + tail == front + [','] + file;
    SplitLast(front, file, ',');
  }

  /**
   * Without MathJax and Word configs, the last piece as written is never the
   * math-disabled config, for a first file `d` such as `_config.yml`.
   */
  lemma LastPieceWithoutOptionals(d: string, argv: Argv)
    requires ',' !in d && |d| > 8 && d[8] != MathDisabledConfig[8]
    requires CommaFreeOptions(argv)
    requires argv.format != Some("math-disabled")
    ensures var pieces := Split(d + CommaThen(FormatFiles(argv)) + Glued(ExtraFiles(argv)), ',');
      pieces[|pieces| - 1] != MathDisabledConfig
  {
    var tail := Glued(ExtraFiles(argv));
    if Truthy(argv.configs) {
      ExtraConfigShape(argv);
    } else {
      assert tail == "";
    }
    if Truthy(argv.format) {
      assert CommaThen(FormatFiles(argv)) == "," + FormatConfig(argv.format.value);
      LastPieceAfterFormat(d, argv.format.value, tail);
    } else {
      assert CommaThen(FormatFiles(argv)) == "";
      assert d + "" == d;
      LastPieceIsWhole(d, tail, MathDisabledConfig);
    }
  }

  /** A `--configs` path holds no comma when the option holds none, and its ninth character is the `/` after `_configs`. */
  lemma ExtraConfigShape(argv: Argv)
    requires Truthy(argv.configs) && CommaFreeOptions(argv)
    ensures var e := ExtraConfig(argv); ',' !in e && |e| >= 9 && e[8] == '/'
  {
    var p := "_configs/";
    assert ',' !in p;
    assert ExtraConfig(argv) == p + StripQuotes(argv.configs.value);
  }

  /** A format config, with or without a `--configs` path glued on, is not the math-disabled config as a last piece. */
  lemma LastPieceAfterFormat(d: string, f: string, tail: string)
    requires ',' !in f && f != "math-disabled" && f != ""
    requires tail == "" || (',' !in tail && |tail| >= 9 && tail[8] == '/')
    ensures var pieces := Split(d + ("," + FormatConfig(f)) + tail, ',');
      pieces[|pieces| - 1] != MathDisabledConfig
  {
    var fc := FormatConfig(f);
    FormatConfigCommaFree(f);
    LastPieceIsGlued(d, fc, tail);
    if tail == "" {
      assert fc + tail == fc;
      if fc == MathDisabledConfig {
        FormatConfigInjective(f);
      }
    } else {
      GluedOntoFormatConfig(f, tail);
    }
  }

  /** After one comma, the last piece is everything that follows it. */
  lemma LastPieceIsGlued(d: string, fc: string, tail: string)
    requires ',' !in fc && ',' !in tail
    ensures var pieces := Split(d + ("," + fc) + tail, ','); pieces[|pieces| - 1] == fc + tail
  {
    assert d + ("," + fc) + tail == d + [','] + (fc + tail);
    SplitLast(d, fc + tail, ',');
  }

  /** Without a comma the string is its own last piece, so it differs from a file it differs from at index 8. */
  lemma LastPieceIsWhole(d: string, tail: string, other: string)
    requires ',' !in d && ',' !in tail
    requires |d| > 8 && |other| > 8 && d[8] != other[8]
    ensures var pieces := Split(d + tail, ','); pieces[|pieces| - 1] != other
  {
    SplitWithoutSeparator(d + tail, ',');
    assert (d + tail)[8] == d[8];
  }

  /** A format config with a `_configs/` path glued on is never the math-disabled config. */
  lemma GluedOntoFormatConfig(f: string, extra: string)
    requires f != "" && |extra| >= 9 && extra[8] == '/'
    ensures FormatConfig(f) + extra != MathDisabledConfig
  {
    var fc := FormatConfig(f);
    var glued := fc + extra;
    assert glued[|fc| + 8] == '/';
    assert forall k :: 9 <= k < |MathDisabledConfig| ==> MathDisabledConfig[k] != '/';
  }

  /** The last file of the list is the math-disabled config exactly on a Word export. */
  lemma LastConfigFile(argv: Argv)
    requires argv.format != Some("math-disabled")
    requires Truthy(argv.configs) ==> ExtraConfig(argv) != MathDisabledConfig
    ensures var files := ConfigFiles(argv);
      files[|files| - 1] == MathDisabledConfig <==> WordExport(argv)
  {
    var files := ConfigFiles(argv);
    if !WordExport(argv) {
      var last := files[|files| - 1];
      if FlagTruthy(argv.mathjax) {
        assert last == MathjaxConfig;
        assert last != MathDisabledConfig by {
          assert MathjaxConfig[24] != MathDisabledConfig[24];
        }
      } else if Truthy(argv.configs) {
        assert last == ExtraConfig(argv);
      } else if Truthy(argv.format) {
        assert last == FormatConfig(argv.format.value);
        if last == MathDisabledConfig {
          FormatConfigInjective(argv.format.value);
        }
      } else {
        assert files == [DefaultConfig];
        assert |DefaultConfig| != |MathDisabledConfig|;
      }
    }
  }

  /** Joining a list and at most one more file. */
  lemma JoinOptional(parts: seq<string>, more: seq<string>)
    requires |parts| >= 1 && |more| <= 1
    ensures Join(parts + more, ',') == Join(parts, ',') + CommaThen(more)
  {
    if more == [] {
      assert parts + more == parts;
    } else {
      assert more == [more[0]];
      JoinSnoc(parts, more[0], ',');
    }
  }

  /** Joining a first file and three optional ones puts a comma before each optional file present. */
  lemma JoinOptionals(d: string, f: seq<string>, m: seq<string>, w: seq<string>)
    requires |f| <= 1 && |m| <= 1 && |w| <= 1
    ensures Join([d] + f + m + w, ',') == d + CommaThen(f) + CommaThen(m) + CommaThen(w)
  {
    JoinOptional([d], f);
    JoinOptional([d] + f, m);
    JoinOptional([d] + f + m, w);
  }

  /** Without a `--configs` option the string as written is the intended one. */
  lemma AsWrittenWithoutConfigs(argv: Argv)
    requires !Truthy(argv.configs)
    ensures ConfigStringSpec(argv) == IntendedConfigString(argv)
  {
    var f, m, w := FormatFiles(argv), MathjaxFiles(argv), WordFiles(argv);
    assert ConfigFiles(argv) == [DefaultConfig] + f + m + w by {
      assert ExtraFiles(argv) == [];
      assert [DefaultConfig] + f + [] == [DefaultConfig] + f;
    }
    assert ConfigStringSpec(argv) == DefaultConfig + CommaThen(f) + CommaThen(m) + CommaThen(w) by {
      assert Glued(ExtraFiles(argv)) == "";
      assert DefaultConfig + CommaThen(f) + "" == DefaultConfig + CommaThen(f);
    }
    JoinOptionals(DefaultConfig, f, m, w);
  }

  /**
   * With a format and a `--configs` file, the string as written glues the
   * extra file onto the format config: splitting it on commas, as
   * `configsObject` does, never finds `_configs/<configs>` (for example with
   * `--format print-pdf --configs extra.yml`), while the intended string does.
   */
  lemma ConfigsGluedToFormatConfig(argv: Argv, f: string, c: string)
    requires argv.format == Some(f) && f != "" && ',' !in f
    requires argv.configs == Some(c) && c != "" && ',' !in c && '\'' !in c && '"' !in c
    requires !FlagTruthy(argv.mathjax) && !WordExport(argv)
    ensures Split(ConfigStringSpec(argv), ',') == [DefaultConfig, FormatConfig(f) + ("_configs/" + c)]
    ensures "_configs/" + c !in Split(ConfigStringSpec(argv), ',')
    ensures "_configs/" + c in Split(IntendedConfigString(argv), ',')
  {
    var extra := "_configs/" + c;
    assert ExtraConfig(argv) == extra by {
      StripAbsentChar(c, '\'');
      StripAbsentChar(c, '"');
    }
    var glued := FormatConfig(f) + extra;
    assert ',' !in glued by {
      FormatConfigCommaFree(f);
      assert ',' !in extra;
    }
    assert ConfigStringSpec(argv) == DefaultConfig + [','] + glued by {
      GluedShape(DefaultConfig, FormatConfig(f), extra);
    }
    assert ',' !in DefaultConfig;
    SplitPair(DefaultConfig, glued, ',');
    assert Split(ConfigStringSpec(argv), ',') == [DefaultConfig, glued];
    assert extra != DefaultConfig by {
      assert extra[7] != DefaultConfig[7];
    }
    assert extra != glued by {
      assert |glued| > |extra|;
    }
    IntendedConfigPieces(argv);
  }

  /** The shape of the string as written when only the format and `--configs` are given. */
  lemma GluedShape(d: string, fc: string, e: string)
    ensures d + ("," + fc) + e + "" + "" == d + [','] + (fc + e)
  {
  }

  /** A format config has a comma only when the format has one. */
  lemma FormatConfigCommaFree(f: string)
    requires ',' !in f
    ensures ',' !in FormatConfig(f)
  {
  }

  // ---------------------------------------------------------------------------
  // jekyllSwitches

  /** The switch tokens `jekyllSwitches` can produce, in order. */
  function SwitchTokens(argv: Argv): seq<string>
  {
    (if Truthy(argv.baseurl) then ["--baseurl=" + argv.baseurl.value] else [])
    + (if StrictTrue(argv.incremental) then ["--incremental"] else [])
  }

  /** Whether the `--switches` option, once its quotes are removed, is non-empty. */
  predicate ExtraSwitches(argv: Argv)
  {
    Truthy(argv.switches) && StripQuotes(argv.switches.value) != ""
  }

  /**
   * What `jekyllSwitches(argv)` evaluates to: each token followed by a space;
   * a non-empty `--switches` value makes it call `forEach` on a string, which
   * throws.
   */
  function SwitchesSpec(argv: Argv): Result<string>
  {
    if ExtraSwitches(argv) then Err(TypeError)
    else Ok(BaseurlSwitch(argv) + IncrementalSwitch(argv))
  }

  function BaseurlSwitch(argv: Argv): string
  {
    if Truthy(argv.baseurl) then "--baseurl=" + argv.baseurl.value + " " else ""
  }

  function IncrementalSwitch(argv: Argv): string
  {
    if StrictTrue(argv.incremental) then "--incremental " else ""
  }

  /** `jekyllSwitches(argv)`, accumulating the switches with `+=`. */
  method JekyllSwitches(argv: Argv) returns (r: Result<string>)
    ensures r == SwitchesSpec(argv)
    ensures r.Err? <==> ExtraSwitches(argv)
  {
    var switches := "";
    if Truthy(argv.baseurl) {
      switches := switches + ("--baseurl=" + argv.baseurl.value + " ");
    }
    assert switches == BaseurlSwitch(argv);
    if StrictTrue(argv.incremental) {
      switches := switches + "--incremental ";
    }
    assert switches == BaseurlSwitch(argv) + IncrementalSwitch(argv);
    var switchesString := "";
    if Truthy(argv.switches) {
      switchesString := StripQuotes(argv.switches.value);
    }
    if switchesString != "" {
      // split and replace return new values that are dropped; forEach is not a string method
      return Err(TypeError);
    }
    return Ok(switches);
  }

  /**
   * For a baseurl without spaces, the switches are exactly the tokens, each
   * followed by a space. The tokens are a view of the one string `jekyll`
   * passes to `spawn` as a single argument; Jekyll receives them unsplit.
   */
  lemma {:induction false} SwitchesAreTokens(argv: Argv)
    requires !ExtraSwitches(argv)
    requires Truthy(argv.baseurl) ==> ' ' !in argv.baseurl.value
    ensures Split(SwitchesSpec(argv).value, ' ') == SwitchTokens(argv) + [""]
  {
    var tokens := SwitchTokens(argv);
    var s := SwitchesSpec(argv).value;
    forall i | 0 <= i < |tokens + [""]|
      ensures ' ' !in (tokens + [""])[i]
    {
    }
    if Truthy(argv.baseurl) && StrictTrue(argv.incremental) {
      var b := "--baseurl=" + argv.baseurl.value;
      assert s == Join([b, "--incremental", ""], ' ');
      assert tokens + [""] == [b, "--incremental", ""];
    } else if Truthy(argv.baseurl) {
      var b := "--baseurl=" + argv.baseurl.value;
      assert s == Join([b, ""], ' ');
      assert tokens + [""] == [b, ""];
    } else if StrictTrue(argv.incremental) {
      assert s == Join(["--incremental", ""], ' ');
      assert tokens + [""] == ["--incremental", ""];
    } else {
      assert s == Join([""], ' ');
    }
    SplitJoin(tokens + [""], ' ');
  }

  /**
   * `--incremental` is among the switches exactly when the option is the
   * boolean `true`; a baseurl switch exactly when the baseurl is non-empty.
   * "Among" is about the space-separated view of the switches string, which
   * stays one spawn argument.
   */
  lemma SwitchesPresence(argv: Argv)
    requires !ExtraSwitches(argv)
    requires Truthy(argv.baseurl) ==> ' ' !in argv.baseurl.value
    ensures var tokens := Split(SwitchesSpec(argv).value, ' ');
      ("--incremental" in tokens <==> StrictTrue(argv.incremental))
      && (Truthy(argv.baseurl) <==> exists t :: t in tokens && StartsWith(t, "--baseurl="))
  {
    SwitchesAreTokens(argv);
    IncrementalToken(argv);
    BaseurlToken(argv);
  }

  /** The incremental token is present exactly when the option is the boolean `true`. */
  lemma IncrementalToken(argv: Argv)
    ensures "--incremental" in SwitchTokens(argv) + [""] <==> StrictTrue(argv.incremental)
  {
    if Truthy(argv.baseurl) {
      var b := "--baseurl=" + argv.baseurl.value;
      assert b != "--incremental" by {
        assert b[2] == 'b';
      }
    }
  }

  /** A token starting with `--baseurl=` is present exactly when the baseurl is non-empty. */
  lemma BaseurlToken(argv: Argv)
    ensures Truthy(argv.baseurl) <==> exists t :: t in SwitchTokens(argv) + [""] && StartsWith(t, "--baseurl=")
  {
    var tokens := SwitchTokens(argv) + [""];
    if Truthy(argv.baseurl) {
      var b := "--baseurl=" + argv.baseurl.value;
      assert b in tokens && StartsWith(b, "--baseurl=");
    } else {
      forall t | t in tokens
        ensures !StartsWith(t, "--baseurl=")
      {
        if t == "--incremental" {
          assert t[2] != 'b';
        }
      }
    }
  }

  // ---------------------------------------------------------------------------
  // jekyll

  /** `serve` for a web output, `build` for everything else. */
  function JekyllCommand(argv: Argv): (c: string)
    ensures c == "serve" <==> argv.format == Some("web") && argv.command == Some("output")
    ensures c == "build" <==> !(argv.format == Some("web") && argv.command == Some("output"))
  {
    if argv.format == Some("web") && argv.command == Some("output") then "serve" else "build"
  }

  /** What `jekyll(argv)` does: spawn `bundle` with these arguments, or log the exception it caught. */
  datatype JekyllRun = Spawned(args: seq<string>) | Caught(error: Thrown)

  /**
   * `jekyll(argv)`: the arguments of `bundle exec jekyll`. When the switches
   * throw, the wrapper catches the exception, spawns nothing and returns
   * normally.
   */
  method Jekyll(argv: Argv) returns (run: JekyllRun)
    ensures run.Caught? <==> ExtraSwitches(argv)
    ensures run.Caught? ==> run.error == TypeError
    ensures run.Spawned? ==>
      run.args == ["exec", "jekyll", JekyllCommand(argv), "--config", ConfigStringSpec(argv),
                   "--baseurl", ToStr(argv.baseurl), SwitchesSpec(argv).value]
  {
    var command := JekyllCommand(argv);
    var config := ConfigString(argv);
    var switches := JekyllSwitches(argv);
    if switches.Err? {
      return Caught(switches.error);
    }
    run := Spawned(["exec", "jekyll", command, "--config", config, "--baseurl", ToStr(argv.baseurl), switches.value]);
  }
}
