/**
 * The format pipelines `web`, `pdf`, `epub`, `app`, `exportWord` and
 * `refreshIndexes`: each is a fixed list of stages awaited one after the
 * other inside a single try/catch. A stage whose error escapes stops the
 * pipeline (the catch only logs, so the pipeline itself then resolves); a
 * stage that never settles leaves the pipeline waiting for ever; a stage
 * whose async call is not awaited cannot hold up the rest, but a call that
 * throws before it returns a promise stops the pipeline like any other error.
 */
module Pipeline {
  import opened Js
  import opened Text
  import Epub
  import WordExport
  import JekyllConfig
  import Names

  /** The paths an `addToEpub` stage is given. */
  datatype EpubSource =
    | ContentFiles                                    // htmlFilePaths(argv, '.xhtml')
    | BookAssets(assetType: string, folder: Option<string>)  // bookAssetPaths(argv, type[, folder])
    | SitePath(path: string)                          // one literal path under _site

  datatype Stage =
    | ClearSite                 // fs.emptyDir('_site')
    | Jekyll
    | RenderMathjax
    | RenderIndexComments
    | RenderIndexLinks
    | ConvertXhtmlLinks
    | ConvertXhtmlFiles
    | CleanHtmlFiles
    | RunPrince
    | OpenOutput
    | MakeAppWww                // fsPromises.mkdir('_site/app/www')
    | AssembleApp
    | Cordova(args: seq<string>, workDir: Option<string>)
    | AddToEpub(source: EpubSource, destination: Option<string>)
    | TestMathjax               // the `mathjaxEnabled(argv)` call of epub(), outside any stage's catch
    | EpubZip
    | EpubZipRename
    | EpubValidate(path: string)
    | ConvertHtmlToWord
    | BuildReferenceIndex(format: Option<string>)
    | BuildSearchIndex(format: Option<string>)

  /**
   * Whether the pipeline awaits the stage; `openOutputFile` and the index
   * builders are only called, so only what their call throws can reach the catch.
   */
  predicate Awaited(s: Stage)
  {
    !(s.OpenOutput? || s.BuildReferenceIndex? || s.BuildSearchIndex?)
  }

  /**
   * Whether the stage catches its own errors: `jekyll`, the gulp wrappers and
   * `cordova` have a try/catch around `logProcess`, and `addToEpub` around
   * its copies. The paths of `addToEpub` are computed by the pipeline before
   * the call, so a throwing `htmlFilePaths` or `bookAssetPaths` escapes.
   */
  predicate Catches(s: Stage)
  {
    s.Jekyll? || s.RenderMathjax? || s.RenderIndexComments? || s.RenderIndexLinks?
    || s.ConvertXhtmlLinks? || s.ConvertXhtmlFiles? || s.CleanHtmlFiles? || s.Cordova?
    || (s.AddToEpub? && s.source.SitePath?)
  }

  /** How a stage's own work ends: its promise resolves, rejects, or never settles. */
  datatype Outcome = Resolved | Rejected | Pending

  /**
   * What the pipeline's try/catch sees of a stage whose work ended with `raw`.
   * For a stage that is not awaited, `Rejected` is a throw from the call
   * itself, before any promise is returned; its promise is never waited for.
   */
  function Effective(s: Stage, raw: Outcome): (o: Outcome)
    ensures o == raw || o == Resolved
    ensures o == Rejected <==> !Catches(s) && raw == Rejected
    ensures o == Pending <==> Awaited(s) && raw == Pending
  {
    if Catches(s) && raw == Rejected then Resolved
    else if !Awaited(s) && raw == Pending then Resolved
    else raw
  }

  // ---------------------------------------------------------------------------
  // logProcess

  /** What a spawned process emits: an `error` event or a `close` with its exit code. */
  datatype ProcessEvent = ErrorEvent(message: string) | Close(exitCode: int)

  /**
   * `logProcess(process)`: the first `error` rejects, the first `close`
   * resolves with the exit code, whatever it is; later settlements are
   * ignored by the promise.
   */
  function LogProcess(events: seq<ProcessEvent>): (o: Outcome)
    ensures o == Pending <==> events == []
    ensures o == Rejected <==> events != [] && events[0].ErrorEvent?
  {
    if events == [] then Pending
    else match events[0]
      case ErrorEvent(_) => Rejected
      case Close(_) => Resolved
  }

  /** A non-zero exit code does not make the stage fail. */
  lemma NonZeroExitResolves(code: int, later: seq<ProcessEvent>)
    requires code != 0
    ensures LogProcess([Close(code)] + later) == Resolved
  {
  }

  /** A stage that catches its own errors never stops the pipeline, whatever its process does. */
  lemma CaughtProcessNeverStops(s: Stage, events: seq<ProcessEvent>)
    requires Catches(s)
    ensures Effective(s, LogProcess(events)) != Rejected
    ensures Effective(s, LogProcess(events)) == Pending <==> events == []
  {
  }

  // ---------------------------------------------------------------------------
  // running a pipeline

  /** How a pipeline ends: every stage resolved, stopped by an escaping error, or waiting for ever. */
  datatype Status = Completed | Stopped(at: nat) | Waiting(at: nat)

  /** The first stage at or after `i` whose awaited outcome is not `Resolved`, or the end. */
  function FirstUnresolved(stages: seq<Stage>, raw: seq<Outcome>, i: nat): (k: nat)
    requires |raw| == |stages| && i <= |stages|
    ensures i <= k <= |stages|
    ensures forall j :: i <= j < k ==> Effective(stages[j], raw[j]) == Resolved
    ensures k < |stages| ==> Effective(stages[k], raw[k]) != Resolved
    decreases |stages| - i
  {
    if i == |stages| || Effective(stages[i], raw[i]) != Resolved then i
    else FirstUnresolved(stages, raw, i + 1)
  }

  function StatusOf(stages: seq<Stage>, raw: seq<Outcome>): Status
    requires |raw| == |stages|
  {
    var k := FirstUnresolved(stages, raw, 0);
    if k == |stages| then Completed
    else if Effective(stages[k], raw[k]) == Rejected then Stopped(k)
    else Waiting(k)
  }

  /** The stages that are started: all up to and including the first one that does not resolve. */
  function IssuedOf(stages: seq<Stage>, raw: seq<Outcome>): seq<Stage>
    requires |raw| == |stages|
  {
    var k := FirstUnresolved(stages, raw, 0);
    if k == |stages| then stages else stages[..k + 1]
  }

  /** The first stage that does not resolve is the one before which every stage resolved. */
  lemma FirstUnresolvedIs(stages: seq<Stage>, raw: seq<Outcome>, k: nat)
    requires |raw| == |stages| && k <= |stages|
    requires forall j :: 0 <= j < k ==> Effective(stages[j], raw[j]) == Resolved
    requires k < |stages| ==> Effective(stages[k], raw[k]) != Resolved
    ensures FirstUnresolved(stages, raw, 0) == k
  {
  }

  /**
   * A pipeline body: `await` each stage in order inside one try/catch.
   * `raw[i]` is how the work of stage `i` ends, if it is started.
   */
  method Run(stages: seq<Stage>, raw: seq<Outcome>) returns (issued: seq<Stage>, status: Status)
    requires |raw| == |stages|
    ensures issued == IssuedOf(stages, raw) && status == StatusOf(stages, raw)
    ensures issued <= stages
    ensures stages != [] ==> |issued| >= 1
    ensures forall j :: 0 <= j < |issued| - 1 ==> Effective(stages[j], raw[j]) == Resolved
    ensures status == Completed <==> forall j :: 0 <= j < |stages| ==> Effective(stages[j], raw[j]) == Resolved
    ensures status == Completed ==> issued == stages
    ensures status.Stopped? ==>
      status.at == |issued| - 1 && Effective(stages[status.at], raw[status.at]) == Rejected
    ensures status.Waiting? ==>
      status.at == |issued| - 1 && Effective(stages[status.at], raw[status.at]) == Pending
  {
    issued := [];
    status := Completed;
    var i := 0;
    while i < |stages|
      invariant i <= |stages|
      invariant issued == stages[..i]
      invariant forall j :: 0 <= j < i ==> Effective(stages[j], raw[j]) == Resolved
      decreases |stages| - i
    {
      issued := issued + [stages[i]];
      var o := Effective(stages[i], raw[i]);
      if o != Resolved {
        FirstUnresolvedIs(stages, raw, i);
        status := if o == Rejected then Stopped(i) else Waiting(i);
        return;
      }
      i := i + 1;
    }
    FirstUnresolvedIs(stages, raw, i);
  }

  /** The pipeline's own promise settles unless some stage never does; a stopped pipeline resolves too. */
  predicate Settles(status: Status)
  {
    !status.Waiting?
  }

  /**
   * Stages that catch their errors, or are not awaited and whose call does
   * not throw, can leave a pipeline waiting, never stop it.
   */
  lemma {:induction false} CatchingStagesNeverStop(stages: seq<Stage>, raw: seq<Outcome>, from: nat)
    requires |raw| == |stages| && from <= |stages|
    requires forall j :: from <= j < |stages| ==> Catches(stages[j]) || (!Awaited(stages[j]) && raw[j] != Rejected)
    requires forall j :: 0 <= j < from ==> Effective(stages[j], raw[j]) == Resolved
    ensures !StatusOf(stages, raw).Stopped?
    ensures (forall j :: from <= j < |stages| ==> raw[j] != Pending) ==> StatusOf(stages, raw) == Completed
  {
    var k := FirstUnresolved(stages, raw, 0);
    assert k >= from;
  }

  // ---------------------------------------------------------------------------
  // the stage lists

  /** `web(argv)`: after `_site` is cleared, only Jekyll runs, and it catches its own errors. */
  function WebStages(): (r: seq<Stage>)
    ensures |r| >= 1 && forall j :: 1 <= j < |r| ==> Catches(r[j])
  {
    [ClearSite, Jekyll]
  }

  /**
   * Once `_site` is cleared, a web run never stops: it completes when Jekyll
   * settles and waits for ever while it does not (as `jekyll serve` does).
   */
  lemma WebNeverStops(raw: seq<Outcome>)
    requires |raw| == |WebStages()| && raw[0] == Resolved
    ensures !StatusOf(WebStages(), raw).Stopped?
    ensures StatusOf(WebStages(), raw) == Completed <==> raw[1] != Pending
  {
    CatchingStagesNeverStop(WebStages(), raw, 1);
    if raw[1] == Pending {
      FirstUnresolvedIs(WebStages(), raw, 1);
    }
  }

  /**
   * `pdf(argv)`: after `_site` is cleared, every stage before Prince catches
   * its own errors, and the output file is opened last, without `await`.
   */
  function PdfStages(): (r: seq<Stage>)
    ensures |r| == 7 && r[5] == RunPrince && r[6] == OpenOutput && !Awaited(r[6])
    ensures forall j :: 1 <= j < 5 ==> Catches(r[j])
    ensures forall j :: 0 <= j < |r| && j != 5 ==> r[j] != RunPrince
  {
    [ClearSite, Jekyll, RenderMathjax, RenderIndexComments, RenderIndexLinks, RunPrince, OpenOutput]
  }

  /** Where `epub()` expects the finished book: `<cwd>/_output/<book>.epub`. */
  function EpubOutputPath(cwd: string, argv: Argv): string
  {
    Normalize(cwd + "/_output/" + ToStr(argv.book) + ".epub")
  }

  /** The copy of the MathJax folder into the EPUB. */
  function MathjaxCopy(cwd: string): Stage
  {
    AddToEpub(SitePath(cwd + "/_site/assets/js/mathjax"), Some("/assets/js/mathjax"))
  }

  /** The copy of `package.opf` into the EPUB. */
  function PackageCopy(cwd: string, argv: Argv): Stage
  {
    AddToEpub(SitePath(cwd + "/_site/" + ToStr(argv.book) + "/package.opf"), Some(""))
  }

  /** Where the MathJax test sits among the additions: after the four fixed ones and the optional bundle. */
  function MathjaxTestIndex(bundleExists: bool): nat
  {
    4 + (if bundleExists then 1 else 0)
  }

  /**
   * The additions before the MathJax test: the content files, the book's
   * images and styles, the shared images, then the script bundle when it
   * exists (the only one copied from a literal path).
   */
  function AdditionsBefore(cwd: string, argv: Argv, bundleExists: bool): (r: seq<Stage>)
    ensures |r| == MathjaxTestIndex(bundleExists)
    ensures forall j :: 0 <= j < |r| ==>
      r[j].AddToEpub? && (r[j].source.SitePath? ==> r[j].destination == Some("/assets/js"))
  {
    var book := ToStr(argv.book);
    [AddToEpub(ContentFiles, argv.book),
     AddToEpub(BookAssets("images", None), Some(book + "/images/epub")),
     AddToEpub(BookAssets("styles", None), Some(book + "/styles")),
     AddToEpub(BookAssets("images", Some("assets")), Some("assets/images/epub"))]
    + (if bundleExists then [AddToEpub(SitePath(cwd + "/_site/assets/js/bundle.js"), Some("/assets/js"))] else [])
  }

  /** The additions after the MathJax test: the MathJax folder when it is on, `package.opf`, then `toc.ncx` when it exists. */
  function AdditionsAfter(cwd: string, argv: Argv, mathjaxOn: bool, ncxExists: bool): (r: seq<Stage>)
    ensures forall j :: 0 <= j < |r| ==> r[j].AddToEpub?
    ensures |r| == 1 + (if mathjaxOn then 1 else 0) + (if ncxExists then 1 else 0)
  {
    (if mathjaxOn then [MathjaxCopy(cwd)] else []) + [PackageCopy(cwd, argv)]
    + (if ncxExists then [AddToEpub(SitePath(cwd + "/_site/" + ToStr(argv.book) + "/toc.ncx"), Some(""))] else [])
  }

  /** After the test, the MathJax folder is copied exactly when it is on, and `package.opf` always. */
  lemma AdditionsAfterCopies(cwd: string, argv: Argv, mathjaxOn: bool, ncxExists: bool)
    ensures var r := AdditionsAfter(cwd, argv, mathjaxOn, ncxExists);
      (MathjaxCopy(cwd) in r <==> mathjaxOn) && PackageCopy(cwd, argv) in r
  {
    var m: seq<Stage> := if mathjaxOn then [MathjaxCopy(cwd)] else [];
    var rest := [PackageCopy(cwd, argv)]
      + (if ncxExists then [AddToEpub(SitePath(cwd + "/_site/" + ToStr(argv.book) + "/toc.ncx"), Some(""))] else []);
    assert AdditionsAfter(cwd, argv, mathjaxOn, ncxExists) == m + rest;
    assert forall j :: 0 <= j < |rest| ==> rest[j].destination == Some("");
    assert rest[0] == PackageCopy(cwd, argv);
  }

  /**
   * The `addToEpub` calls of `epub()` in order, with the `mathjaxEnabled`
   * test between the bundle and the MathJax copy; `mathjaxOn` is what the
   * test returned.
   */
  function EpubAdditions(cwd: string, argv: Argv, bundleExists: bool, mathjaxOn: bool, ncxExists: bool): (r: seq<Stage>)
    ensures forall j :: 0 <= j < |r| ==> r[j].AddToEpub? || r[j] == TestMathjax
    ensures |r| == 6 + (if bundleExists then 1 else 0) + (if mathjaxOn then 1 else 0) + (if ncxExists then 1 else 0)
    ensures r[MathjaxTestIndex(bundleExists)] == TestMathjax
  {
    AdditionsBefore(cwd, argv, bundleExists) + [TestMathjax] + AdditionsAfter(cwd, argv, mathjaxOn, ncxExists)
  }

  /**
   * The MathJax folder is copied exactly when the test said it is on, and
   * `package.opf` only after the test.
   */
  lemma EpubAdditionsCopies(cwd: string, argv: Argv, bundleExists: bool, mathjaxOn: bool, ncxExists: bool)
    ensures var r := EpubAdditions(cwd, argv, bundleExists, mathjaxOn, ncxExists);
      var i := MathjaxTestIndex(bundleExists);
      (MathjaxCopy(cwd) in r <==> mathjaxOn)
      && PackageCopy(cwd, argv) !in r[..i + 1]
      && PackageCopy(cwd, argv) in r[i + 1..]
  {
    var before := AdditionsBefore(cwd, argv, bundleExists);
    var after := AdditionsAfter(cwd, argv, mathjaxOn, ncxExists);
    var r := before + [TestMathjax] + after;
    AdditionsAfterCopies(cwd, argv, mathjaxOn, ncxExists);
    assert r[..|before| + 1] == before + [TestMathjax];
    assert r[|before| + 1..] == after;
    assert MathjaxCopy(cwd) !in before + [TestMathjax];
  }

  /** The gulp stages `epub()` runs after Jekyll, before any file is added. */
  function EpubPreparation(): (r: seq<Stage>)
    ensures |r| == 7 && forall j :: 0 <= j < 7 ==> !r[j].AddToEpub? && r[j] != TestMathjax && r[j] != EpubZip
  {
    [ClearSite, Jekyll, RenderIndexComments, RenderIndexLinks, ConvertXhtmlLinks, ConvertXhtmlFiles, CleanHtmlFiles]
  }

  /** Zip, rename into `_output` and validate: the last three stages of `epub()`. */
  function EpubFinish(cwd: string, argv: Argv): seq<Stage>
  {
    [EpubZip, EpubZipRename, EpubValidate(EpubOutputPath(cwd, argv))]
  }

  /**
   * `epub(argv)`. `bundleExists` and `ncxExists` are the two `pathExists`
   * tests, `mathjax` is what `mathjaxEnabled(argv)` returns or throws.
   */
  function EpubStages(cwd: string, argv: Argv, bundleExists: bool, mathjax: Result<bool>, ncxExists: bool): (r: seq<Stage>)
    ensures |r| >= 16 && r[|r| - 3] == EpubZip
  {
    EpubPreparation() + EpubAdditions(cwd, argv, bundleExists, mathjax == Ok(true), ncxExists) + EpubFinish(cwd, argv)
  }

  /** The MathJax folder is copied into the EPUB exactly when the test returns `true`. */
  lemma EpubMathjaxCopy(cwd: string, argv: Argv, bundleExists: bool, mathjax: Result<bool>, ncxExists: bool)
    ensures MathjaxCopy(cwd) in EpubStages(cwd, argv, bundleExists, mathjax, ncxExists) <==> mathjax == Ok(true)
  {
    var p := EpubPreparation();
    var a := EpubAdditions(cwd, argv, bundleExists, mathjax == Ok(true), ncxExists);
    var f := EpubFinish(cwd, argv);
    EpubAdditionsCopies(cwd, argv, bundleExists, mathjax == Ok(true), ncxExists);
    assert MathjaxCopy(cwd) !in p && MathjaxCopy(cwd) !in f;
    assert MathjaxCopy(cwd) in p + a + f <==> MathjaxCopy(cwd) in a;
  }

  /** The outcome of the MathJax test seen as a stage: a throw rejects. */
  function TestOutcome(mathjax: Result<bool>): Outcome
  {
    if mathjax.Err? then Rejected else Resolved
  }

  /**
   * The order of `epub()`: the seven preparation stages, then only additions
   * to the EPUB folder and the MathJax test, then zip, rename and validate as
   * the last three.
   */
  lemma EpubOrder(cwd: string, argv: Argv, bundleExists: bool, mathjax: Result<bool>, ncxExists: bool)
    ensures var s := EpubStages(cwd, argv, bundleExists, mathjax, ncxExists);
      var z := |s| - 3;
      |s| >= 16
      && s[..7] == EpubPreparation()
      && (forall j :: 7 <= j < z ==> s[j].AddToEpub? || s[j] == TestMathjax)
      && s[z] == EpubZip && s[z + 1] == EpubZipRename && s[z + 2] == EpubValidate(EpubOutputPath(cwd, argv))
      && (forall j :: 0 <= j < |s| ==> (s[j] == EpubZip <==> j == z))
  {
    var a := EpubAdditions(cwd, argv, bundleExists, mathjax == Ok(true), ncxExists);
    OrderOfParts(EpubPreparation(), a, EpubFinish(cwd, argv));
  }

  /** Seven stages without a zip, then additions and tests, then a zip and two more stages: the zip is third from the end and nowhere else. */
  lemma OrderOfParts(p: seq<Stage>, a: seq<Stage>, f: seq<Stage>)
    requires |p| == 7 && forall j :: 0 <= j < 7 ==> p[j] != EpubZip
    requires |a| >= 6 && forall j :: 0 <= j < |a| ==> a[j].AddToEpub? || a[j] == TestMathjax
    requires |f| == 3 && f[0] == EpubZip && f[1] != EpubZip && f[2] != EpubZip
    ensures var s := p + a + f;
      var z := |s| - 3;
      |s| >= 16
      && s[..7] == p
      && (forall j :: 7 <= j < z ==> s[j].AddToEpub? || s[j] == TestMathjax)
      && s[z] == f[0] && s[z + 1] == f[1] && s[z + 2] == f[2]
      && (forall j :: 0 <= j < |s| ==> (s[j] == EpubZip <==> j == z))
  {
    var s := p + a + f;
    assert s[..7] == p;
    assert forall j :: 7 <= j < |s| - 3 ==> s[j] == a[j - 7];
  }

  /** A zip stage rejects when `epubZip()` has no entries to write. */
  function ZipOutcome(r: Result<seq<Epub.Entry>>): Outcome
  {
    if r.Err? then Rejected else Resolved
  }

  /**
   * Without a `_site/epub` folder, a run of `epub()` that reaches the zip
   * stage stops there: the book is neither renamed into `_output` nor validated,
   * and the pipeline resolves.
   */
  lemma MissingEpubFolderStops(cwd: string, argv: Argv, bundleExists: bool, mathjax: Result<bool>, ncxExists: bool, raw: seq<Outcome>)
    requires var s := EpubStages(cwd, argv, bundleExists, mathjax, ncxExists);
      |raw| == |s|
      && (forall j :: 0 <= j < |s| - 3 ==> Effective(s[j], raw[j]) == Resolved)
      && raw[|s| - 3] == ZipOutcome(Epub.ZipEntries(cwd, None))
    ensures var s := EpubStages(cwd, argv, bundleExists, mathjax, ncxExists);
      StatusOf(s, raw) == Stopped(|s| - 3)
      && IssuedOf(s, raw) == s[..|s| - 2]
      && EpubZipRename !in IssuedOf(s, raw)
      && Settles(StatusOf(s, raw))
  {
    var s := EpubStages(cwd, argv, bundleExists, mathjax, ncxExists);
    EpubOrder(cwd, argv, bundleExists, mathjax, ncxExists);
    assert forall j :: 0 <= j < |s| - 2 ==> s[j] != EpubZipRename by {
      forall j | 0 <= j < |s| - 2
        ensures s[j] != EpubZipRename
      {
        if j < 7 {
          assert s[j] == EpubPreparation()[j];
        }
      }
    }
    StopsAt(s, raw, |s| - 3);
  }

  /** A run whose stages before `k` resolve and whose stage `k` rejects is stopped there, having issued `k + 1` stages. */
  lemma StopsAt(s: seq<Stage>, raw: seq<Outcome>, k: nat)
    requires |raw| == |s| && k < |s|
    requires forall j :: 0 <= j < k ==> Effective(s[j], raw[j]) == Resolved
    requires Effective(s[k], raw[k]) == Rejected
    requires forall j :: 0 <= j <= k ==> s[j] != EpubZipRename
    ensures StatusOf(s, raw) == Stopped(k) && IssuedOf(s, raw) == s[..k + 1]
    ensures EpubZipRename !in IssuedOf(s, raw)
  {
    FirstUnresolvedIs(s, raw, k);
  }

  /** Every stage before `k` resolves, as the pipeline's `await` sees it. */
  predicate ResolvedBefore(s: seq<Stage>, raw: seq<Outcome>, k: nat)
    requires |raw| == |s| && k <= |s|
  {
    forall j :: 0 <= j < k ==> Effective(s[j], raw[j]) == Resolved
  }

  /**
   * A `mathjaxEnabled` test that throws stops `epub()` at once: nothing
   * after it is started, so neither `package.opf` is copied nor the book
   * zipped, renamed or validated, and the pipeline resolves.
   */
  lemma MathjaxFailureStopsEpub(cwd: string, argv: Argv, bundleExists: bool, mathjax: Result<bool>, ncxExists: bool, raw: seq<Outcome>)
    requires mathjax.Err?
    requires var s := EpubStages(cwd, argv, bundleExists, mathjax, ncxExists);
      var k := 7 + MathjaxTestIndex(bundleExists);
      |raw| == |s|
      && ResolvedBefore(s, raw, k)
      && raw[k] == TestOutcome(mathjax)
    ensures var s := EpubStages(cwd, argv, bundleExists, mathjax, ncxExists);
      var k := 7 + MathjaxTestIndex(bundleExists);
      StatusOf(s, raw) == Stopped(k)
      && IssuedOf(s, raw) == s[..k + 1]
      && PackageCopy(cwd, argv) !in IssuedOf(s, raw)
      && EpubZip !in IssuedOf(s, raw)
      && Settles(StatusOf(s, raw))
  {
    var s := EpubStages(cwd, argv, bundleExists, mathjax, ncxExists);
    var a := EpubAdditions(cwd, argv, bundleExists, false, ncxExists);
    var i := MathjaxTestIndex(bundleExists);
    var k := 7 + i;
    var prefix := EpubPreparation() + a[..i + 1];
    assert s == EpubPreparation() + a + EpubFinish(cwd, argv);
    assert s[..k + 1] == prefix;
    assert s[k] == TestMathjax;
    FirstUnresolvedIs(s, raw, k);
    EpubAdditionsCopies(cwd, argv, bundleExists, false, ncxExists);
    assert EpubZip !in a[..i + 1] by {
      assert forall j :: 0 <= j < i + 1 ==> a[..i + 1][j] == a[j];
    }
  }

  /**
   * `epub()` with `--configs`: the config list glues the extra file onto the
   * EPUB format config, so when `_configs/_config.epub.yml_configs/<c>` is
   * not a file the MathJax test throws and the run stops before the book is
   * zipped.
   */
  lemma GluedConfigsStopEpub(cwd: string, argv: Argv, configs: Names.ConfigStore, c: string,
                             bundleExists: bool, ncxExists: bool, mathjax: Result<bool>, raw: seq<Outcome>)
    requires argv.format == Some("epub")
    requires argv.configs == Some(c) && c != "" && ',' !in c && '\'' !in c && '"' !in c
    requires !FlagTruthy(argv.mathjax) && !JekyllConfig.WordExport(argv)
    requires JekyllConfig.DefaultConfig in configs
    requires JekyllConfig.FormatConfig("epub") + ("_configs/" + c) !in configs
    requires mathjax == Names.MathjaxEnabled(argv, configs)
    requires var s := EpubStages(cwd, argv, bundleExists, mathjax, ncxExists);
      var k := 7 + MathjaxTestIndex(bundleExists);
      |raw| == |s|
      && ResolvedBefore(s, raw, k)
      && raw[k] == TestOutcome(mathjax)
    ensures var s := EpubStages(cwd, argv, bundleExists, mathjax, ncxExists);
      StatusOf(s, raw) == Stopped(7 + MathjaxTestIndex(bundleExists)) && EpubZip !in IssuedOf(s, raw)
  {
    Names.GluedConfigThrows(argv, configs, "epub", c);
    MathjaxFailureStopsEpub(cwd, argv, bundleExists, mathjax, ncxExists, raw);
  }

  /** The working directory `cordova(args, dir)` runs in: `dir` when it is truthy, else `<cwd>/_site/app`. */
  function CordovaWorkDir(cwd: string, workDir: Option<string>): (d: string)
    ensures |d| > 0
  {
    if Truthy(workDir) then workDir.value else Normalize(cwd + "/_site/app")
  }

  /** The Cordova calls of `app(argv)` when `app-build` is set. */
  function CordovaStages(argv: Argv): seq<Stage>
  {
    var os := ToStr(argv.appOs);
    [Cordova(["platform", "add", os], None),
     Cordova(["platform", "prepare", os], None),
     Cordova(["build", os], if FlagTruthy(argv.appRelease) then Some("--release") else None)]
    + (if FlagTruthy(argv.appEmulate) then [Cordova(["emulate", os], None)] else [])
  }

  /** `app(argv)`: four preparation stages, then only Cordova calls, and those only with `app-build`. */
  function AppStages(argv: Argv): (r: seq<Stage>)
    ensures |r| >= 4 && forall j :: 4 <= j < |r| ==> r[j].Cordova? && Catches(r[j])
    ensures |r| > 4 <==> FlagTruthy(argv.appBuild)
  {
    [ClearSite, Jekyll, MakeAppWww, AssembleApp] + (if FlagTruthy(argv.appBuild) then CordovaStages(argv) else [])
  }

  /**
   * `app(argv)` calls Cordova exactly when `app-build` is set; the build is
   * the third call; a release build passes `--release` as the working
   * directory, not as a Cordova argument, and an emulator run is the fourth
   * call when `app-emulate` is set.
   */
  lemma AppCordovaCalls(cwd: string, argv: Argv)
    ensures var s := AppStages(argv);
      (exists j :: 4 <= j < |s| && s[j].Cordova?) <==> FlagTruthy(argv.appBuild)
    ensures var s := AppStages(argv);
      FlagTruthy(argv.appBuild) ==>
        |s| == 7 + (if FlagTruthy(argv.appEmulate) then 1 else 0)
        && s[6].args == ["build", ToStr(argv.appOs)]
        && CordovaWorkDir(cwd, s[6].workDir)
           == (if FlagTruthy(argv.appRelease) then "--release" else Normalize(cwd + "/_site/app"))
        && (FlagTruthy(argv.appEmulate) ==> s[7] == Cordova(["emulate", ToStr(argv.appOs)], None))
  {
    var s := AppStages(argv);
    if FlagTruthy(argv.appBuild) {
      assert s[4].Cordova?;
      assert s[6].args[1] == ToStr(argv.appOs) && s[6].args[0] == "build";
    }
  }

  /** Once the app folder is assembled, the Cordova calls can hold `app()` up but never stop it. */
  lemma AppBuildNeverStops(argv: Argv, raw: seq<Outcome>)
    requires |raw| == |AppStages(argv)|
    requires forall j :: 0 <= j < 4 ==> Effective(AppStages(argv)[j], raw[j]) == Resolved
    ensures !StatusOf(AppStages(argv), raw).Stopped?
  {
    var s := AppStages(argv);
    assert forall j :: 4 <= j < |s| ==> s[j].Cordova?;
    CatchingStagesNeverStop(s, raw, 4);
  }

  /** `exportWord(argv)`: after `_site` is cleared, only the conversion can stop the run. */
  function ExportWordStages(): (r: seq<Stage>)
    ensures ConvertHtmlToWord in r
    ensures forall j :: 1 <= j < |r| && r[j] != ConvertHtmlToWord ==> Catches(r[j])
  {
    [ClearSite, Jekyll, ConvertHtmlToWord]
  }

  /** How the Word stage ends, from its file list and its pandoc callbacks. */
  function WordOutcome(filePaths: Result<seq<string>>, outcomes: seq<bool>): Outcome
  {
    if filePaths.Err? then Rejected
    else if WordExport.Resolves(|filePaths.value|, outcomes) then Resolved
    else Pending
  }

  /**
   * One file that pandoc fails to convert makes `exportWord()` wait for ever
   * (every file has its callback); a file list that throws stops it instead.
   */
  lemma WordFailureHangsExport(filePaths: Result<seq<string>>, outcomes: seq<bool>, jekyll: Outcome)
    requires filePaths.Ok? && |outcomes| == |filePaths.value|
    requires jekyll != Pending
    ensures var raw := [Resolved, jekyll, WordOutcome(filePaths, outcomes)];
      StatusOf(ExportWordStages(), raw) == Completed
      <==> |outcomes| > 0 && forall i :: 0 <= i < |outcomes| ==> outcomes[i]
    ensures var raw := [Resolved, jekyll, WordOutcome(filePaths, outcomes)];
      !Settles(StatusOf(ExportWordStages(), raw))
      <==> |outcomes| == 0 || exists i :: 0 <= i < |outcomes| && !outcomes[i]
  {
    var raw := [Resolved, jekyll, WordOutcome(filePaths, outcomes)];
    WordExport.OneCallbackPerFile(|outcomes|, outcomes);
    assert Effective(ExportWordStages()[1], raw[1]) == Resolved;
    if WordOutcome(filePaths, outcomes) == Resolved {
      FirstUnresolvedIs(ExportWordStages(), raw, 3);
    } else {
      FirstUnresolvedIs(ExportWordStages(), raw, 2);
    }
  }

  /** A Word export whose file list throws stops at the Word stage and resolves. */
  lemma WordFileListFailureStops(filePaths: Result<seq<string>>, outcomes: seq<bool>, jekyll: Outcome)
    requires filePaths.Err? && jekyll != Pending
    ensures StatusOf(ExportWordStages(), [Resolved, jekyll, WordOutcome(filePaths, outcomes)]) == Stopped(2)
  {
    var raw := [Resolved, jekyll, WordOutcome(filePaths, outcomes)];
    assert Effective(ExportWordStages()[1], raw[1]) == Resolved;
    FirstUnresolvedIs(ExportWordStages(), raw, 2);
  }

  /** `buildReferenceIndex` and `buildSearchIndex`, which `refreshIndexes` calls without `await`. */
  predicate IndexBuilder(s: Stage)
  {
    s.BuildReferenceIndex? || s.BuildSearchIndex?
  }

  predicate IsPdfOrEpub(format: Option<string>)
  {
    format == Some("print-pdf") || format == Some("screen-pdf") || format == Some("epub")
  }

  predicate IsWebOrApp(format: Option<string>)
  {
    format == Some("web") || format == Some("app")
  }

  /**
   * `refreshIndexes(argv)`: after `_site` is cleared, every stage catches its
   * errors or is an index builder, which is called without `await`.
   */
  function RefreshIndexesStages(argv: Argv): (r: seq<Stage>)
    ensures |r| >= 3 && r[0] == ClearSite
    ensures forall j :: 1 <= j < |r| ==> Catches(r[j]) || IndexBuilder(r[j])
  {
    [ClearSite, Jekyll]
    + (if IsPdfOrEpub(argv.format) then [RenderMathjax, RenderIndexComments] else [])
    + [BuildReferenceIndex(argv.format)]
    + (if IsWebOrApp(argv.format) then [BuildSearchIndex(argv.format)] else [])
  }

  /**
   * `refreshIndexes(argv)`: MathJax and index comments are rendered only for
   * the PDF and EPUB formats, the search index is built only for web and app,
   * the reference index always.
   */
  lemma RefreshIndexesShape(argv: Argv)
    ensures var s := RefreshIndexesStages(argv);
      (RenderMathjax in s <==> IsPdfOrEpub(argv.format))
      && (BuildSearchIndex(argv.format) in s <==> IsWebOrApp(argv.format))
      && BuildReferenceIndex(argv.format) in s
  {
    var s := RefreshIndexesStages(argv);
    var tail := [BuildReferenceIndex(argv.format)] + (if IsWebOrApp(argv.format) then [BuildSearchIndex(argv.format)] else []);
    if IsPdfOrEpub(argv.format) {
      assert s[2] == RenderMathjax;
      assert s[|s| - 1] == BuildReferenceIndex(argv.format);
    } else {
      assert s == [ClearSite, Jekyll] + tail;
      assert s[2] == BuildReferenceIndex(argv.format);
      assert !IsWebOrApp(argv.format) ==> |s| == 3;
    }
    if IsWebOrApp(argv.format) {
      assert s[|s| - 1] == BuildSearchIndex(argv.format);
    }
  }

  /**
   * Once `_site` is cleared, only an index builder whose call throws can
   * stop `refreshIndexes(argv)`; when neither call throws nothing stops it.
   */
  lemma RefreshIndexesStops(argv: Argv, raw: seq<Outcome>)
    requires |raw| == |RefreshIndexesStages(argv)| && raw[0] == Resolved
    ensures var s := RefreshIndexesStages(argv);
      (StatusOf(s, raw).Stopped? ==>
         IndexBuilder(s[StatusOf(s, raw).at]) && raw[StatusOf(s, raw).at] == Rejected)
      && ((forall j :: 0 <= j < |s| && IndexBuilder(s[j]) ==> raw[j] != Rejected) ==> !StatusOf(s, raw).Stopped?)
  {
    var s := RefreshIndexesStages(argv);
    if forall j :: 0 <= j < |s| && IndexBuilder(s[j]) ==> raw[j] != Rejected {
      CatchingStagesNeverStop(s, raw, 1);
    }
  }

  /**
   * How the call `openOutputFile(argv)` in `pdf()` returns: with a book name
   * it opens the output file; without one it takes `argv` itself for a path,
   * and normalizing an object as a path throws before anything is opened.
   */
  function OpenOutputCall(argv: Argv): Outcome
  {
    if Truthy(argv.book) then Resolved else Rejected
  }

  /**
   * `pdf(argv)`: with `_site` cleared and no stage hanging, the run stops at
   * Prince exactly when Prince rejects, and then the output file is not
   * opened; otherwise it stops at `openOutputFile` exactly when no book is
   * named. Failures in Jekyll and the gulp stages do not matter.
   */
  lemma PdfStopsOnlyAtPrince(argv: Argv, raw: seq<Outcome>)
    requires |raw| == |PdfStages()| && raw[0] == Resolved
    requires forall j :: 0 <= j < |raw| ==> raw[j] != Pending
    requires raw[6] == OpenOutputCall(argv)
    ensures StatusOf(PdfStages(), raw) ==
      (if raw[5] == Rejected then Stopped(5) else if Truthy(argv.book) then Completed else Stopped(6))
    ensures raw[5] == Rejected ==> OpenOutput !in IssuedOf(PdfStages(), raw)
  {
    var s := PdfStages();
    assert forall j :: 0 <= j < 5 ==> Effective(s[j], raw[j]) == Resolved;
    if raw[5] == Rejected {
      FirstUnresolvedIs(s, raw, 5);
      assert IssuedOf(s, raw) == s[..6];
    } else if Truthy(argv.book) {
      FirstUnresolvedIs(s, raw, 7);
    } else {
      FirstUnresolvedIs(s, raw, 6);
    }
  }
}
