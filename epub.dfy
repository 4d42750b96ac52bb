/**
 * EPUB container assembly: the walk of the uncompressed `_site/epub` tree
 * into zip entries (`epubZip` with its inner `getFiles`) and the copying of
 * content and asset files into that tree (`addToEpub`).
 *
 * The OCF ZIP container rules of EPUB 3 (EPUB Open Container Format 3.0,
 * section 4.3) ask for a first entry named `mimetype`, stored without
 * compression, holding `application/epub+zip`; every other file follows.
 */
module Epub {
  import opened Js
  import opened Text

  newtype byte = x: int | 0 <= x < 256

  /** A directory tree as `readdirSync` lists it: each directory's children in listing order. */
  datatype Node = File(name: string, content: seq<byte>) | Dir(name: string, children: seq<Node>)

  datatype Compression = Store | Deflate

  /** One `zip.file(path, data, { compression })` call. */
  datatype Entry = Entry(path: string, data: seq<byte>, compression: Compression)

  /** A regular file of the tree: the names leading to it from the root, and its contents. */
  datatype FileAt = FileAt(segments: seq<string>, content: seq<byte>)

  const MimetypeName := "mimetype"

  /** `application/epub+zip`, byte by byte. */
  const MimetypeContent: seq<byte> :=
    [0x61, 0x70, 0x70, 0x6c, 0x69, 0x63, 0x61, 0x74, 0x69, 0x6f, 0x6e, 0x2f,
     0x65, 0x70, 0x75, 0x62, 0x2b, 0x7a, 0x69, 0x70]

  const MimetypeEntry := Entry(MimetypeName, MimetypeContent, Store)

  // ---------------------------------------------------------------------------
  // The walk

  /**
   * The regular files under `node`, depth first in listing order; a child
   * named exactly `mimetype` (a file or a directory) is skipped with all it
   * contains. A tree that is a single file is that file, at the empty path.
   */
  function Files(node: Node): seq<FileAt>
    decreases node, 0
  {
    match node
    case File(_, content) => [FileAt([], content)]
    case Dir(_, children) => ChildFiles(children)
  }

  function ChildFiles(children: seq<Node>): seq<FileAt>
    decreases children
  {
    if children == [] then []
    else
      var last := children[|children| - 1];
      ChildFiles(children[..|children| - 1]) + ChildContribution(last)
  }

  /** What one child adds to its directory's files. */
  function ChildContribution(child: Node): seq<FileAt>
    decreases child, 1
  {
    if child.name == MimetypeName then [] else Under(child.name, Files(child))
  }

  /** The files of the first `i + 1` children extend those of the first `i` by the next child's. */
  lemma ChildFilesStep(children: seq<Node>, i: nat)
    requires i < |children|
    ensures ChildFiles(children[..i + 1]) == ChildFiles(children[..i]) + ChildContribution(children[i])
  {
    var p := children[..i + 1];
    assert p[..|p| - 1] == children[..i];
    assert p[|p| - 1] == children[i];
  }

  /** The same files, one directory further down. */
  function Under(name: string, files: seq<FileAt>): seq<FileAt>
  {
    seq(|files|, i requires 0 <= i < |files| => FileAt([name] + files[i].segments, files[i].content))
  }

  /** `path.posix.join(base, name)` for a name without separators. */
  function JoinPath(base: string, name: string): string
  {
    if base == "" then name else base + "/" + name
  }

  /** The path the walk builds for a file: each name joined onto the base in turn. */
  function PathOf(base: string, segments: seq<string>): string
    decreases |segments|
  {
    if segments == [] then base else PathOf(JoinPath(base, segments[0]), segments[1..])
  }

  /** The paths of the given files below `base`, in order. */
  function PathsOf(base: string, files: seq<FileAt>): (r: seq<string>)
    ensures |r| == |files|
  {
    if files == [] then [] else [PathOf(base, files[0].segments)] + PathsOf(base, files[1..])
  }

  lemma {:induction false} PathsOfAt(base: string, files: seq<FileAt>, i: nat)
    requires i < |files|
    ensures PathsOf(base, files)[i] == PathOf(base, files[i].segments)
  {
    if i > 0 {
      PathsOfAt(base, files[1..], i - 1);
    }
  }

  lemma {:induction false} PathsOfAppend(base: string, a: seq<FileAt>, b: seq<FileAt>)
    ensures PathsOf(base, a + b) == PathsOf(base, a) + PathsOf(base, b)
  {
    var l := PathsOf(base, a + b);
    var r := PathsOf(base, a) + PathsOf(base, b);
    assert |l| == |r|;
    forall i | 0 <= i < |l|
      ensures l[i] == r[i]
    {
      PathsOfAt(base, a + b, i);
      if i < |a| {
        assert (a + b)[i] == a[i];
        PathsOfAt(base, a, i);
      } else {
        assert (a + b)[i] == b[i - |a|];
        PathsOfAt(base, b, i - |a|);
      }
    }
  }

  lemma PathsOfUnder(base: string, name: string, files: seq<FileAt>)
    ensures PathsOf(base, Under(name, files)) == PathsOf(JoinPath(base, name), files)
  {
    var u := Under(name, files);
    forall i | 0 <= i < |files|
      ensures PathOf(base, u[i].segments) == PathOf(JoinPath(base, name), files[i].segments)
    {
      assert u[i].segments == [name] + files[i].segments;
      assert u[i].segments[1..] == files[i].segments;
    }
    forall i | 0 <= i < |files|
      ensures PathsOf(base, u)[i] == PathsOf(JoinPath(base, name), files)[i]
    {
      PathsOfAt(base, u, i);
      PathsOfAt(JoinPath(base, name), files, i);
    }
  }

  /**
   * `getFiles(root, files, base)`: pushes onto `files` the path of every
   * regular file under `node`, which sits at `base` below the root.
   */
  method GetFiles(node: Node, base: string, files: seq<string>) returns (out: seq<string>)
    ensures out == files + PathsOf(base, Files(node))
    decreases node, 2
  {
    if node.File? {
      out := files + [base];
    } else {
      out := GetChildFiles(node, base, files);
    }
  }

  /** The paths one more child adds: none for `mimetype`, else its own files below `base/<name>`. */
  function ChildPaths(base: string, child: Node): seq<string>
  {
    if child.name == MimetypeName then [] else PathsOf(JoinPath(base, child.name), Files(child))
  }

  lemma ChildPathsStep(base: string, children: seq<Node>, i: nat)
    requires i < |children|
    ensures PathsOf(base, ChildFiles(children[..i + 1]))
         == PathsOf(base, ChildFiles(children[..i])) + ChildPaths(base, children[i])
  {
    var child := children[i];
    ChildFilesStep(children, i);
    PathsOfAppend(base, ChildFiles(children[..i]), ChildContribution(child));
    if child.name != MimetypeName {
      PathsOfUnder(base, child.name, Files(child));
    }
  }

  /** The `readdirSync(directory).forEach` loop of `getFiles`. */
  method GetChildFiles(node: Node, base: string, files: seq<string>) returns (out: seq<string>)
    requires node.Dir?
    ensures out == files + PathsOf(base, ChildFiles(node.children))
    decreases node, 1
  {
    var children := node.children;
    out := files;
    for i := 0 to |children|
      invariant out == files + PathsOf(base, ChildFiles(children[..i]))
    {
      ghost var done := PathsOf(base, ChildFiles(children[..i]));
      ghost var more := ChildPaths(base, children[i]);
      assert PathsOf(base, ChildFiles(children[..i + 1])) == done + more by {
        ChildPathsStep(base, children, i);
      }
      out := VisitChild(node, i, base, out);
      assert (files + done) + more == files + (done + more);
    }
    assert children[..|children|] == children;
  }

  /** The `forEach` callback for one child: skip `mimetype`, else walk the child at `base/<name>`. */
  method VisitChild(node: Node, i: nat, base: string, files: seq<string>) returns (out: seq<string>)
    requires node.Dir? && i < |node.children|
    ensures out == files + ChildPaths(base, node.children[i])
    decreases node, 0
  {
    var child := node.children[i];
    if child.name == MimetypeName {
      out := files;
    } else {
      out := GetFiles(child, JoinPath(base, child.name), files);
    }
  }

  // ---------------------------------------------------------------------------
  // Reading a file back by its path

  /** The first child with the given name, as a readdir-ordered lookup finds it. */
  function FindChild(children: seq<Node>, name: string): (r: Option<Node>)
    ensures r.Some? ==> r.value in children && r.value.name == name
    ensures r.None? ==> forall i :: 0 <= i < |children| ==> children[i].name != name
  {
    if children == [] then None
    else if children[0].name == name then Some(children[0])
    else FindChild(children[1..], name)
  }

  /** The contents of the regular file at the given names below `node`, if there is one. */
  function ReadSegments(node: Node, segments: seq<string>): Option<seq<byte>>
    decreases |segments|
  {
    if segments == [] then
      (if node.File? then Some(node.content) else None)
    else if node.File? then None
    else
      match FindChild(node.children, segments[0])
      case None => None
      case Some(c) => ReadSegments(c, segments[1..])
  }

  /** `readFileSync(path.posix.join(root, path))` against the tree. */
  function ReadFile(root: Node, path: string): Option<seq<byte>>
  {
    ReadSegments(root, if path == "" then [] else Split(path, '/'))
  }

  // ---------------------------------------------------------------------------
  // epubZip

  /** The `DEFLATE` entries for the given paths, each holding what reading it gives. */
  function FileEntries(root: Node, paths: seq<string>): (r: Result<seq<Entry>>)
    ensures r.Ok? ==> |r.value| == |paths|
  {
    if paths == [] then Ok([])
    else
      var last := paths[|paths| - 1];
      match FileEntries(root, paths[..|paths| - 1])
      case Err(e) => Err(e)
      case Ok(es) =>
        match ReadFile(root, last)
        case None => Err(NoSuchFile(last))
        case Some(data) => Ok(es + [Entry(last, data, Deflate)])
  }

  /** Each entry holds its path, what reading that path gives, and the `DEFLATE` flag. */
  lemma {:induction false} FileEntriesAt(root: Node, paths: seq<string>, i: nat)
    requires FileEntries(root, paths).Ok? && i < |paths|
    ensures ReadFile(root, paths[i]).Some?
    ensures FileEntries(root, paths).value[i] == Entry(paths[i], ReadFile(root, paths[i]).value, Deflate)
  {
    var init := paths[..|paths| - 1];
    if i < |init| {
      FileEntriesAt(root, init, i);
    }
  }

  /** The entries are built exactly when every path can be read; the first unreadable one rejects. */
  lemma {:induction false} FileEntriesOkIff(root: Node, paths: seq<string>)
    ensures FileEntries(root, paths).Ok? <==> forall i :: 0 <= i < |paths| ==> ReadFile(root, paths[i]).Some?
  {
    if paths != [] {
      var init := paths[..|paths| - 1];
      FileEntriesOkIff(root, init);
      assert forall i :: 0 <= i < |init| ==> init[i] == paths[i];
      if FileEntries(root, paths).Ok? {
        forall i | 0 <= i < |paths|
          ensures ReadFile(root, paths[i]).Some?
        {
          FileEntriesAt(root, paths, i);
        }
      }
    }
  }

  /** Once a path cannot be read, the entries stay rejected with that path, however many follow. */
  lemma {:induction false} FirstUnreadable(root: Node, paths: seq<string>, i: nat, j: nat)
    requires i < j <= |paths|
    requires FileEntries(root, paths[..i]).Ok? && ReadFile(root, paths[i]).None?
    ensures FileEntries(root, paths[..j]) == Err(NoSuchFile(paths[i]))
    decreases j
  {
    assert paths[..j][..j - 1] == paths[..j - 1];
    if j > i + 1 {
      FirstUnreadable(root, paths, i, j - 1);
    }
  }

  /** The uncompressed EPUB directory, `<cwd>/_site/epub`. */
  function EpubDirectory(cwd: string): string
  {
    Normalize(cwd + "/_site/epub")
  }

  /** What `epubZip()` hands to JSZip, in order, or why it rejects. */
  function ZipEntries(cwd: string, root: Option<Node>): Result<seq<Entry>>
  {
    match root
    case None => Err(SourceMissing(EpubDirectory(cwd)))
    case Some(tree) =>
      match FileEntries(tree, PathsOf("", Files(tree)))
      case Err(e) => Err(e)
      case Ok(es) => Ok([MimetypeEntry] + es)
  }

  /**
   * `epubZip()`: collect the paths with `getFiles`, add the `mimetype` entry,
   * then one entry per path in order. `root` is the `_site/epub` tree, `None`
   * when that directory does not exist.
   */
  method EpubZip(cwd: string, root: Option<Node>) returns (r: Result<seq<Entry>>)
    ensures r == ZipEntries(cwd, root)
    ensures root.None? ==> r == Err(SourceMissing(EpubDirectory(cwd)))
    ensures r.Ok? ==> |r.value| >= 1 && r.value[0] == MimetypeEntry
  {
    if root.None? {
      return Err(SourceMissing(EpubDirectory(cwd)));
    }
    var tree := root.value;
    var paths := GetFiles(tree, "", []);
    assert paths == PathsOf("", Files(tree));
    var entries := [MimetypeEntry];
    for i := 0 to |paths|
      invariant FileEntries(tree, paths[..i]).Ok?
      invariant entries == [MimetypeEntry] + FileEntries(tree, paths[..i]).value
    {
      assert paths[..i + 1][..i] == paths[..i];
      var data := ReadFile(tree, paths[i]);
      if data.None? {
        FirstUnreadable(tree, paths, i, |paths|);
        assert paths[..|paths|] == paths;
        return Err(NoSuchFile(paths[i]));
      }
      entries := entries + [Entry(paths[i], data.value, Deflate)];
    }
    assert paths[..|paths|] == paths;
    return Ok(entries);
  }

  /** The container's entries: `mimetype` first and STORE, then every walked file as DEFLATE, in walk order. */
  lemma ZipLayout(cwd: string, tree: Node)
    requires ZipEntries(cwd, Some(tree)).Ok?
    ensures var es := ZipEntries(cwd, Some(tree)).value;
      var paths := PathsOf("", Files(tree));
      |es| == 1 + |paths|
      && es[0] == MimetypeEntry && es[0].compression == Store
      && forall i :: 1 <= i < |es| ==> es[i].path == paths[i - 1] && es[i].compression == Deflate
  {
    var paths := PathsOf("", Files(tree));
    var es := ZipEntries(cwd, Some(tree)).value;
    forall i | 1 <= i < |es|
      ensures es[i].path == paths[i - 1] && es[i].compression == Deflate
    {
      FileEntriesAt(tree, paths, i - 1);
    }
  }

  // ---------------------------------------------------------------------------
  // Well-formed trees

  /** Names as a file system lists them: non-empty, without separators, unique within a directory. */
  predicate ValidName(name: string)
  {
    name != "" && '/' !in name
  }

  predicate WellFormed(node: Node)
    decreases node
  {
    match node
    case File(_, _) => true
    case Dir(_, children) => ChildrenWellFormed(children)
  }

  predicate ChildrenWellFormed(children: seq<Node>)
    decreases children
  {
    (forall i :: 0 <= i < |children| ==> ValidName(children[i].name))
    && (forall i, j :: 0 <= i < j < |children| ==> children[i].name != children[j].name)
    && (forall i :: 0 <= i < |children| ==> WellFormed(children[i]))
  }

  /** Each file's names are valid names and none of them is `mimetype`. */
  predicate CleanSegments(segments: seq<string>)
  {
    forall k :: 0 <= k < |segments| ==> ValidName(segments[k]) && segments[k] != MimetypeName
  }

  /**
   * In a well-formed tree every walked file's names are valid and none of
   * them is `mimetype`, at any depth, and reading the file back along those
   * names finds its contents.
   */
  lemma {:induction false} FilesAreReadable(node: Node)
    requires WellFormed(node)
    ensures forall i :: 0 <= i < |Files(node)| ==> Readable(node, Files(node)[i])
    decreases node, 1
  {
    match node
    case File(_, _) =>
    case Dir(_, children) =>
      ChildFilesAreReadable(node, |children|);
      assert children[..|children|] == children;
      assert Files(node) == ChildFiles(children);
  }

  /** A walked file of `node` whose names are clean and lead back to its contents. */
  predicate Readable(node: Node, f: FileAt)
  {
    CleanSegments(f.segments) && ReadSegments(node, f.segments) == Some(f.content)
  }

  lemma {:induction false} ChildFilesAreReadable(node: Node, n: nat)
    requires node.Dir? && n <= |node.children|
    requires ChildrenWellFormed(node.children)
    ensures var fs := ChildFiles(node.children[..n]);
      forall i :: 0 <= i < |fs| ==> Readable(node, fs[i])
    decreases node, 0, n
  {
    if n > 0 {
      var children := node.children;
      ChildFilesAreReadable(node, n - 1);
      ChildFilesStep(children, n - 1);
      ContributionReadable(node, n - 1);
      var a := ChildFiles(children[..n - 1]);
      var b := ChildContribution(children[n - 1]);
      forall i | 0 <= i < |a + b|
        ensures Readable(node, (a + b)[i])
      {
        if i < |a| {
          assert (a + b)[i] == a[i];
        } else {
          assert (a + b)[i] == b[i - |a|];
        }
      }
    }
  }

  /** The files one child contributes are readable from its directory. */
  lemma {:induction false} ContributionReadable(node: Node, k: nat)
    requires node.Dir? && k < |node.children|
    requires ChildrenWellFormed(node.children)
    ensures var fs := ChildContribution(node.children[k]);
      forall i :: 0 <= i < |fs| ==> Readable(node, fs[i])
    decreases node, 0, 0
  {
    var children := node.children;
    var child := children[k];
    if child.name != MimetypeName {
      assert child in children;
      FilesAreReadable(child);
      FindUnique(children, k);
      var below := Files(child);
      var fs := Under(child.name, below);
      forall i | 0 <= i < |fs|
        ensures Readable(node, fs[i])
      {
        var g := below[i];
        var segs := fs[i].segments;
        assert Readable(child, g);
        assert segs == [child.name] + g.segments;
        assert segs[1..] == g.segments;
        assert ReadSegments(node, segs) == ReadSegments(child, g.segments);
        forall m | 0 <= m < |segs|
          ensures ValidName(segs[m]) && segs[m] != MimetypeName
        {
          if m > 0 {
            assert segs[m] == g.segments[m - 1];
          }
        }
      }
    }
  }

  /** With unique names the lookup by a child's name finds that child. */
  lemma {:induction false} FindUnique(children: seq<Node>, k: nat)
    requires k < |children|
    requires forall i, j :: 0 <= i < j < |children| ==> children[i].name != children[j].name
    ensures FindChild(children, children[k].name) == Some(children[k])
  {
    if k > 0 {
      assert children[0].name != children[k].name;
      assert children[1..][k - 1] == children[k];
      FindUnique(children[1..], k - 1);
    }
  }

  /** For valid names the walk's path is the names joined by `/`, and splitting it gives the names back. */
  lemma {:induction false} PathOfSegments(segments: seq<string>)
    requires forall k :: 0 <= k < |segments| ==> ValidName(segments[k])
    ensures segments == [] ==> PathOf("", segments) == ""
    ensures segments != [] ==> PathOf("", segments) != "" && Split(PathOf("", segments), '/') == segments
  {
    if segments != [] {
      PathOfNonEmptyBase(segments[0], segments[1..]);
      JoinIsSlashJoined(segments);
      SplitJoin(segments, '/');
    }
  }

  /** The names after the first, each preceded by a separator. */
  function SlashJoined(rest: seq<string>): string
  {
    if rest == [] then "" else "/" + rest[0] + SlashJoined(rest[1..])
  }

  /** From a non-empty base, the walk's path is the base followed by `/name` for each name. */
  lemma {:induction false} PathOfNonEmptyBase(base: string, rest: seq<string>)
    requires base != ""
    ensures PathOf(base, rest) == base + SlashJoined(rest)
    decreases |rest|
  {
    if rest != [] {
      PathOfNonEmptyBase(base + "/" + rest[0], rest[1..]);
      assert base + "/" + rest[0] + SlashJoined(rest[1..]) == base + ("/" + rest[0] + SlashJoined(rest[1..]));
    }
  }

  /** `Join` is the first name followed by the others, each after a separator. */
  lemma {:induction false} JoinIsSlashJoined(segments: seq<string>)
    requires segments != []
    ensures Join(segments, '/') == segments[0] + SlashJoined(segments[1..])
    decreases |segments|
  {
    if |segments| > 1 {
      JoinIsSlashJoined(segments[1..]);
      assert segments[1..][1..] == segments[2..];
      assert segments[1..][0] == segments[1];
    }
  }

  /**
   * A well-formed tree always zips: the entries after `mimetype` carry the
   * walked files' contents in walk order, and no later entry is named
   * `mimetype`.
   */
  lemma ZipOfWellFormedTree(cwd: string, tree: Node)
    requires WellFormed(tree)
    ensures ZipEntries(cwd, Some(tree)).Ok?
    ensures var es := ZipEntries(cwd, Some(tree)).value;
      var files := Files(tree);
      |es| == 1 + |files|
      && forall i :: 1 <= i < |es| ==> es[i].data == files[i - 1].content && es[i].path != MimetypeName
  {
    var files := Files(tree);
    var paths := PathsOf("", files);
    FilesAreReadable(tree);
    forall i | 0 <= i < |paths|
      ensures ReadFile(tree, paths[i]) == Some(files[i].content) && paths[i] != MimetypeName
    {
      WalkedPathReadable(tree, i);
    }
    FileEntriesOkIff(tree, paths);
    var es := ZipEntries(cwd, Some(tree)).value;
    forall i | 1 <= i < |es|
      ensures es[i].data == files[i - 1].content && es[i].path != MimetypeName
    {
      FileEntriesAt(tree, paths, i - 1);
    }
  }

  /** The `i`-th walked path of a well-formed tree reads back the `i`-th file and is not `mimetype`. */
  lemma WalkedPathReadable(tree: Node, i: nat)
    requires i < |Files(tree)|
    requires Readable(tree, Files(tree)[i])
    ensures var path := PathsOf("", Files(tree))[i];
      ReadFile(tree, path) == Some(Files(tree)[i].content) && path != MimetypeName
  {
    var f := Files(tree)[i];
    PathsOfAt("", Files(tree), i);
    var path := PathOf("", f.segments);
    PathOfSegments(f.segments);
    if f.segments != [] && path == MimetypeName {
      SplitWithoutSeparator(MimetypeName, '/');
      assert false;
    }
  }

  // ---------------------------------------------------------------------------
  // addToEpub

  datatype Kind = IsFile | IsDirectory

  /** One `fs.copySync(source, destination)`. */
  datatype Copy = Copy(source: string, destination: string)

  /** The destination directory `<cwd>/_site/epub/<folder>/`, with a separator appended when `folder` lacks one. */
  function DestinationPath(cwd: string, folder: string): (d: string)
    ensures EndsWith(d, "/")
  {
    var raw := cwd + "/_site/epub/" + (if EndsWith(folder, "/") then folder else folder + "/");
    CollapseKeepsEnd(raw, false);
    assert raw[|raw| - 1] == '/' by {
      if !EndsWith(folder, "/") {
        assert raw == (cwd + "/_site/epub/" + folder) + "/";
      } else {
        assert raw[|raw| - 1] == folder[|folder| - 1];
      }
    }
    var d := Normalize(raw);
    assert d != [] && d[|d| - 1] == '/';
    assert d[|d| - 1..] == "/";
    d
  }

  /** A folder without a trailing separator names the same destination as with one. */
  lemma DestinationSlashOptional(cwd: string, folder: string)
    requires !EndsWith(folder, "/")
    ensures DestinationPath(cwd, folder) == DestinationPath(cwd, folder + "/")
  {
    assert EndsWith(folder + "/", "/") by {
      assert (folder + "/")[|folder + "/"| - 1..] == "/";
    }
  }

  /** The copy `addToEpub` makes for one path, if the path exists and copying it succeeds. */
  function CopyFor(dest: string, path: string, kinds: map<string, Kind>, failing: set<string>): Option<Copy>
  {
    var p := Normalize(path);
    if p !in kinds || p in failing then None
    else if kinds[p] == IsDirectory then Some(Copy(p, dest))
    else Some(Copy(p, dest + Basename(p, "")))
  }

  /** Whether copying a path succeeds: it exists and the copy does not fail. */
  predicate Copied(path: string, kinds: map<string, Kind>, failing: set<string>)
  {
    Normalize(path) in kinds && Normalize(path) !in failing
  }

  /**
   * The copies for a list of paths, in order: a directory's contents go into
   * the destination itself, a file goes in under its own basename, and a
   * missing path or a failed copy is skipped.
   */
  function CopiesFor(dest: string, paths: seq<string>, kinds: map<string, Kind>, failing: set<string>): (r: seq<Copy>)
    ensures |r| <= |paths|
  {
    if paths == [] then []
    else
      var c := CopyFor(dest, paths[|paths| - 1], kinds, failing);
      CopiesFor(dest, paths[..|paths| - 1], kinds, failing) + (if c.Some? then [c.value] else [])
  }

  /**
   * Every copy comes from a path that exists and copies without error, and
   * lands in the destination: a directory's contents in the destination
   * itself, a file under its own basename.
   */
  lemma {:induction false} CopiesLand(dest: string, paths: seq<string>, kinds: map<string, Kind>, failing: set<string>)
    ensures forall c :: c in CopiesFor(dest, paths, kinds, failing) ==>
      c.source in kinds && c.source !in failing && StartsWith(c.destination, dest)
      && (kinds[c.source] == IsDirectory ==> c.destination == dest)
      && (kinds[c.source] == IsFile ==> c.destination == dest + Basename(c.source, ""))
  {
    if paths != [] {
      CopiesLand(dest, paths[..|paths| - 1], kinds, failing);
      var c := CopyFor(dest, paths[|paths| - 1], kinds, failing);
      if c.Some? {
        assert c.value.destination[..|dest|] == dest;
      }
    }
  }

  /** One more path adds one copy exactly when that path is copied. */
  lemma CopiesForStep(dest: string, paths: seq<string>, kinds: map<string, Kind>, failing: set<string>)
    requires paths != []
    ensures |CopiesFor(dest, paths, kinds, failing)|
         == |CopiesFor(dest, paths[..|paths| - 1], kinds, failing)| + (if Copied(paths[|paths| - 1], kinds, failing) then 1 else 0)
  {
  }

  /** Whether every path exists and copies without error. */
  predicate AllCopied(paths: seq<string>, kinds: map<string, Kind>, failing: set<string>)
  {
    forall i :: 0 <= i < |paths| ==> Copied(paths[i], kinds, failing)
  }

  /** Every path is copied exactly when the earlier ones are and the last one is. */
  lemma AllCopiedSnoc(paths: seq<string>, kinds: map<string, Kind>, failing: set<string>)
    requires paths != []
    ensures AllCopied(paths, kinds, failing)
        <==> AllCopied(paths[..|paths| - 1], kinds, failing) && Copied(paths[|paths| - 1], kinds, failing)
  {
    var init := paths[..|paths| - 1];
    assert forall i :: 0 <= i < |init| ==> init[i] == paths[i];
  }

  /** Every path is copied exactly when each of them exists and copies without error. */
  lemma {:induction false} AllCopiedIff(dest: string, paths: seq<string>, kinds: map<string, Kind>, failing: set<string>)
    ensures |CopiesFor(dest, paths, kinds, failing)| == |paths| <==> AllCopied(paths, kinds, failing)
  {
    if paths != [] {
      var init := paths[..|paths| - 1];
      AllCopiedIff(dest, init, kinds, failing);
      CopiesForStep(dest, paths, kinds, failing);
      AllCopiedSnoc(paths, kinds, failing);
      var m := |CopiesFor(dest, init, kinds, failing)|;
      assert m <= |init|;
    }
  }

  /** One more path adds its copy, if any, to the copies of the paths before it. */
  lemma CopiesForPrefix(dest: string, paths: seq<string>, i: nat, kinds: map<string, Kind>, failing: set<string>)
    requires i < |paths|
    ensures var c := CopyFor(dest, paths[i], kinds, failing);
      CopiesFor(dest, paths[..i + 1], kinds, failing)
      == CopiesFor(dest, paths[..i], kinds, failing) + (if c.Some? then [c.value] else [])
  {
    assert paths[..i + 1][..i] == paths[..i];
  }

  /**
   * `addToEpub(arrayOfPaths, destinationFolder)`: copies each path that
   * exists into the destination and counts the copies. With no destination
   * folder `endsWith` throws on `undefined`; the wrapper catches that and
   * copies nothing. (The `return true` inside the loop only leaves one
   * iteration of `forEach`.)
   */
  method AddToEpub(cwd: string, paths: seq<string>, destinationFolder: Option<string>,
                   kinds: map<string, Kind>, failing: set<string>)
    returns (copies: seq<Copy>, totalCopied: nat)
    ensures destinationFolder.None? ==> copies == []
    ensures destinationFolder.Some? ==>
      copies == CopiesFor(DestinationPath(cwd, destinationFolder.value), paths, kinds, failing)
    ensures totalCopied == |copies| <= |paths|
  {
    copies := [];
    totalCopied := 0;
    if destinationFolder.None? {
      return;
    }
    var folder := destinationFolder.value;
    if !EndsWith(folder, "/") {
      folder := folder + "/";
    }
    var dest := Normalize(cwd + "/_site/epub/" + folder);
    assert dest == DestinationPath(cwd, destinationFolder.value);
    for i := 0 to |paths|
      invariant copies == CopiesFor(dest, paths[..i], kinds, failing)
      invariant totalCopied == |copies|
    {
      CopiesForPrefix(dest, paths, i, kinds, failing);
      var p := Normalize(paths[i]);
      if p in kinds && p !in failing {
        if kinds[p] == IsDirectory {
          copies := copies + [Copy(p, dest)];
        } else {
          copies := copies + [Copy(p, dest + Basename(p, ""))];
        }
        totalCopied := totalCopied + 1;
      }
    }
    assert paths[..|paths|] == paths;
  }
}
