/**
 * Word export (`convertHTMLtoWord`): one pandoc conversion per content file
 * into `_output/<book>--word/<name>.docx`, and the counter of successful
 * conversions that decides whether the export ever completes.
 *
 * The pandoc callbacks arrive asynchronously; the model receives them as a
 * sequence of outcomes in arrival order (`true` for a conversion without
 * error).
 */
module WordExport {
  import opened Js
  import opened Text
  import opened Metadata
  import opened Names

  /** `<cwd>/_output/<book>--word`; a missing book reads as `undefined`. */
  function OutputLocation(cwd: string, argv: Argv): string
  {
    Normalize(cwd + "/_output/" + ToStr(argv.book) + "--word")
  }

  /** `<location>/<basename without .html>.docx`. */
  function OutputFilePath(location: string, filePath: string): (r: string)
    ensures LastSegment(r) == Basename(filePath, ".html") + ".docx"
  {
    var name := Basename(filePath, ".html");
    assert location + "/" + name + ".docx" == location + "/" + (name + ".docx");
    NormalizeKeepsLastSegment(location, name + ".docx");
    Normalize(location + "/" + name + ".docx")
  }

  /** One `pandoc(filePath, args, callback)` call. */
  datatype PandocCall = PandocCall(input: string, args: seq<string>)

  /** The pandoc call for one file: resources looked up beside it, HTML to a standalone docx. */
  function PandocCallFor(location: string, filePath: string): (c: PandocCall)
    ensures c.input == filePath && |c.args| == 8
    ensures c.args[0] == "--resource-path=" + Dirname(filePath)
    ensures c.args[7] == OutputFilePath(location, filePath)
  {
    PandocCall(filePath, ["--resource-path=" + Dirname(filePath), "-f", "html", "-t", "docx", "-s", "-o",
                          OutputFilePath(location, filePath)])
  }

  function CountTrue(outcomes: seq<bool>): (n: nat)
    ensures n <= |outcomes|
  {
    if outcomes == [] then 0 else CountTrue(outcomes[..|outcomes| - 1]) + (if outcomes[|outcomes| - 1] then 1 else 0)
  }

  /**
   * Whether the export's promise resolves: some success must bring the
   * counter to exactly the number of files. The counter grows by one per
   * success, so that happens exactly when there is at least one file and at
   * least as many successes as files.
   */
  predicate Resolves(total: nat, outcomes: seq<bool>)
  {
    total > 0 && CountTrue(outcomes) >= total
  }

  /**
   * The pandoc callbacks of `convertHTMLtoWord`: a success increments
   * `totalConverted` and resolves once it equals the number of files; a
   * failure is only logged.
   */
  method CountConversions(total: nat, outcomes: seq<bool>) returns (resolved: bool, converted: nat)
    ensures converted == CountTrue(outcomes)
    ensures resolved == Resolves(total, outcomes)
  {
    resolved := false;
    converted := 0;
    for i := 0 to |outcomes|
      invariant converted == CountTrue(outcomes[..i])
      invariant resolved <==> total > 0 && converted >= total
    {
      assert outcomes[..i + 1][..i] == outcomes[..i];
      if outcomes[i] {
        converted := converted + 1;
        if converted == total {
          resolved := true;
        }
      }
    }
    assert outcomes[..|outcomes|] == outcomes;
  }

  /** All callbacks succeed exactly when the successes number as many as the callbacks. */
  lemma {:induction false} CountAllTrue(outcomes: seq<bool>)
    ensures CountTrue(outcomes) == |outcomes| <==> forall i :: 0 <= i < |outcomes| ==> outcomes[i]
  {
    if outcomes != [] {
      var init := outcomes[..|outcomes| - 1];
      CountAllTrue(init);
      assert forall i :: 0 <= i < |init| ==> init[i] == outcomes[i];
    }
  }

  /**
   * With one callback per file, the export completes exactly when there is
   * a file and every conversion succeeds: a single failure, or an empty file
   * list, leaves the promise pending for ever.
   */
  lemma OneCallbackPerFile(total: nat, outcomes: seq<bool>)
    requires |outcomes| == total
    ensures Resolves(total, outcomes) <==> total > 0 && forall i :: 0 <= i < total ==> outcomes[i]
  {
    CountAllTrue(outcomes);
  }

  /** Five files of which the third fails to convert: the export never completes. */
  lemma OneFailureOfFive()
    ensures !Resolves(5, [true, true, false, true, true])
  {
    var outcomes := [true, true, false, true, true];
    OneCallbackPerFile(5, outcomes);
    assert !outcomes[2];
  }

  /** The pandoc calls for a list of files, one per file in the same order. */
  function PandocCalls(location: string, paths: seq<string>): (r: seq<PandocCall>)
    ensures |r| == |paths|
  {
    if paths == [] then [] else PandocCalls(location, paths[..|paths| - 1]) + [PandocCallFor(location, paths[|paths| - 1])]
  }

  lemma {:induction false} PandocCallsAt(location: string, paths: seq<string>, i: nat)
    requires i < |paths|
    ensures PandocCalls(location, paths)[i] == PandocCallFor(location, paths[i])
  {
    if i < |paths| - 1 {
      PandocCallsAt(location, paths[..|paths| - 1], i);
    }
  }

  /** What `convertHTMLtoWord` does once the file list is known. */
  datatype WordRun = WordRun(calls: seq<PandocCall>, converted: nat, resolved: bool)

  /**
   * `convertHTMLtoWord(argv)`: a pandoc call for each file of
   * `htmlFilePaths(argv)`, in order, then the callbacks. A file list that
   * throws makes the export reject.
   */
  method ConvertHtmlToWord(cwd: string, argv: Argv, settings: Option<Settings>, store: Store, outcomes: seq<bool>)
    returns (r: Result<WordRun>)
    ensures var filePaths := HtmlFilePaths(cwd, argv, settings, store, None);
      (r.Err? <==> filePaths.Err?)
      && (r.Ok? ==>
            r.value.calls == PandocCalls(OutputLocation(cwd, argv), filePaths.value)
            && r.value.converted == CountTrue(outcomes)
            && r.value.resolved == Resolves(|filePaths.value|, outcomes))
  {
    var filePaths := HtmlFilePaths(cwd, argv, settings, store, None);
    if filePaths.Err? {
      return Err(filePaths.error);
    }
    var paths := filePaths.value;
    var location := OutputLocation(cwd, argv);
    var calls := [];
    for i := 0 to |paths|
      invariant calls == PandocCalls(location, paths[..i])
    {
      assert paths[..i + 1][..i] == paths[..i];
      calls := calls + [PandocCallFor(location, paths[i])];
    }
    assert paths[..|paths|] == paths;
    var resolved, converted := CountConversions(|paths|, outcomes);
    return Ok(WordRun(calls, converted, resolved));
  }

  /**
   * Each content file of the book becomes `<name>.docx` in the output
   * location: the Word file's last segment is the entry name with `.docx`.
   */
  lemma WordFileNames(cwd: string, argv: Argv, settings: Option<Settings>, store: Store, i: nat)
    requires HtmlFilePaths(cwd, argv, settings, store, None).Ok?
    requires i < |FileList(cwd, argv, settings, store).value|
    requires var name := EntryName(FileList(cwd, argv, settings, store).value[i]);
      name != "" && '/' !in name
    ensures var path := HtmlFilePaths(cwd, argv, settings, store, None).value[i];
      LastSegment(OutputFilePath(OutputLocation(cwd, argv), path))
        == EntryName(FileList(cwd, argv, settings, store).value[i]) + ".docx"
  {
    var name := EntryName(FileList(cwd, argv, settings, store).value[i]);
    HtmlFilePathNames(cwd, argv, settings, store, None, i);
    var location := OutputLocation(cwd, argv);
    assert location + "/" + name + ".docx" == location + "/" + (name + ".docx");
    NormalizeKeepsLastSegment(location, name + ".docx");
  }
}
