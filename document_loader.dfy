/**
 * `load_documents_from_path` of `rag_builder.py`: walk a local directory
 * top-down, stay out of ignored directories, skip test and mock files and
 * files without an allowed extension, and turn every other file that can
 * be read into a document tagged with a category and a source type.
 *
 * The directory on disk is an abstract finite tree; a file whose text
 * cannot be read as UTF-8 has no text.
 */
module DocumentLoader {
  import opened Wrappers
  import opened Text
  import opened Seqs

  datatype LocalFile = LocalFile(name: string, text: Option<string>)

  datatype LocalDir = LocalDir(name: string, files: seq<LocalFile>, subdirs: seq<LocalDir>)

  /** A loaded document: its text and the `source`, `category` and `source_type` metadata. */
  datatype Document = Document(content: string, source: string, category: string, sourceType: string)

  /** A file met by the walk: the directory path it is in and the directory names between the start and it. */
  datatype Found = Found(dir: string, under: seq<string>, file: LocalFile)

  /** One directory the walk still has to visit. */
  datatype Frame = Frame(root: string, under: seq<string>, dir: LocalDir)

  /** The extensions allowed when the caller gives none. */
  const DefaultExtensions: set<string> :=
    {".py", ".md", ".js", ".ts", ".java", ".go", ".html", ".css", ".txt", ".sh", ".yml", ".yaml", ".json"}

  /** The extensions allowed for a cloned repository. */
  const RepositoryExtensions: set<string> := {".go"}

  /** Directory names the walk does not descend into, compared with the lower-cased name. */
  const IgnoredDirs: set<string> :=
    {".git", "node_modules", "__pycache__", "build", "dist", "target", "test", "tests", "mock", "mocks", "vendor"}

  predicate Ignored(dirName: string) {
    Lower(dirName) in IgnoredDirs
  }

  /** The allow-list in force: the caller's, or the default one. */
  function AllowedOrDefault(allowedExtensions: Option<set<string>>): set<string> {
    allowedExtensions.GetOr(DefaultExtensions)
  }

  /**
   * The file filter: the lower-cased name has no `_test.` or `_mock.` in it
   * and does not start with `test_` or `mock_`, and the name as written
   * ends with one of the allowed extensions.
   */
  predicate KeepFile(name: string, allowed: set<string>) {
    var lower := Lower(name);
    !Contains(lower, "_test.") && !Contains(lower, "_mock.")
    && !StartsWith(lower, "test_") && !StartsWith(lower, "mock_")
    && exists ext :: ext in allowed && EndsWith(name, ext)
  }

  // ---------------------------------------------------------------------
  // The walk
  // ---------------------------------------------------------------------

  /** The files of one directory, in listing order. */
  function FilesHere(root: string, under: seq<string>, files: seq<LocalFile>): (r: seq<Found>)
    ensures |r| == |files|
    ensures forall i :: 0 <= i < |files| ==> r[i] == Found(root, under, files[i])
  {
    seq(|files|, i requires 0 <= i < |files| => Found(root, under, files[i]))
  }

  /** `os.walk` from a directory, top-down, with ignored subdirectories removed before descending. */
  function Visit(root: string, under: seq<string>, d: LocalDir): seq<Found>
    decreases d
  {
    FilesHere(root, under, d.files) + VisitAll(root, under, d.subdirs)
  }

  function VisitAll(root: string, under: seq<string>, ds: seq<LocalDir>): seq<Found>
    decreases ds
  {
    if ds == [] then []
    else
      (if Ignored(ds[0].name) then []
       else Visit(JoinPath(root, ds[0].name), under + [ds[0].name], ds[0]))
      + VisitAll(root, under, ds[1..])
  }

  /** The walk from the start directory; the start directory itself is never checked against the ignored names. */
  function Walk(path: string, tree: LocalDir): seq<Found> {
    Visit(path, [], tree)
  }

  /** The same walk without pruning: every file of the tree. */
  function AllFound(root: string, under: seq<string>, d: LocalDir): seq<Found>
    decreases d
  {
    FilesHere(root, under, d.files) + AllFoundIn(root, under, d.subdirs)
  }

  function AllFoundIn(root: string, under: seq<string>, ds: seq<LocalDir>): seq<Found>
    decreases ds
  {
    if ds == [] then []
    else AllFound(JoinPath(root, ds[0].name), under + [ds[0].name], ds[0]) + AllFoundIn(root, under, ds[1..])
  }

  /** None of the directories between the start and the file is ignored. */
  predicate IsClean(x: Found) {
    forall i :: 0 <= i < |x.under| ==> !Ignored(x.under[i])
  }

  lemma {:induction false} AllFoundUnder(root: string, under: seq<string>, d: LocalDir)
    ensures forall x :: x in AllFound(root, under, d) ==> under <= x.under
    decreases d, 1
  {
    AllFoundInUnder(root, under, d.subdirs);
  }

  lemma {:induction false} AllFoundInUnder(root: string, under: seq<string>, ds: seq<LocalDir>)
    ensures forall x :: x in AllFoundIn(root, under, ds) ==> under <= x.under
    decreases ds, 0
  {
    if ds != [] {
      AllFoundUnder(JoinPath(root, ds[0].name), under + [ds[0].name], ds[0]);
      AllFoundInUnder(root, under, ds[1..]);
    }
  }

  lemma FilterAll<T>(s: seq<T>, p: T -> bool)
    requires forall i :: 0 <= i < |s| ==> p(s[i])
    ensures Filter(s, p) == s
  {
    if s != [] {
      FilterAll(s[1..], p);
    }
  }

  lemma FilterNone<T>(s: seq<T>, p: T -> bool)
    requires forall i :: 0 <= i < |s| ==> !p(s[i])
    ensures Filter(s, p) == []
  {
    if s != [] {
      FilterNone(s[1..], p);
    }
  }

  /**
   * Pruning keeps exactly the files that lie under no ignored directory:
   * the walk is the unpruned walk restricted to clean files, in the same
   * order.
   */
  lemma {:induction false} VisitPrunes(root: string, under: seq<string>, d: LocalDir)
    requires forall i :: 0 <= i < |under| ==> !Ignored(under[i])
    ensures Visit(root, under, d) == Filter(AllFound(root, under, d), IsClean)
    decreases d, 1
  {
    var here := FilesHere(root, under, d.files);
    FilterAll(here, IsClean);
    FilterConcat(here, AllFoundIn(root, under, d.subdirs), IsClean);
    VisitAllPrunes(root, under, d.subdirs);
  }

  lemma {:induction false} VisitAllPrunes(root: string, under: seq<string>, ds: seq<LocalDir>)
    requires forall i :: 0 <= i < |under| ==> !Ignored(under[i])
    ensures VisitAll(root, under, ds) == Filter(AllFoundIn(root, under, ds), IsClean)
    decreases ds, 0
  {
    if ds != [] {
      var child := ds[0];
      var sub := under + [child.name];
      var found := AllFound(JoinPath(root, child.name), sub, child);
      FilterConcat(found, AllFoundIn(root, under, ds[1..]), IsClean);
      VisitAllPrunes(root, under, ds[1..]);
      if Ignored(child.name) {
        AllFoundUnder(JoinPath(root, child.name), sub, child);
        forall i | 0 <= i < |found| ensures !IsClean(found[i]) {
          assert found[i] in found;
          assert sub <= found[i].under;
          assert found[i].under[|under|] == child.name;
        }
        FilterNone(found, IsClean);
      } else {
        VisitPrunes(JoinPath(root, child.name), sub, child);
      }
    }
  }

  /** No file beneath an ignored directory is ever met by the walk. */
  lemma WalkStaysOutOfIgnored(path: string, tree: LocalDir)
    ensures forall i :: 0 <= i < |Walk(path, tree)| ==> IsClean(Walk(path, tree)[i])
    ensures forall x :: x in AllFound(path, [], tree) && IsClean(x) ==> x in Walk(path, tree)
  {
    VisitPrunes(path, [], tree);
  }

  // ---------------------------------------------------------------------
  // Loading
  // ---------------------------------------------------------------------

  /** The document for one file met by the walk, if it passes the filter and can be read. */
  function LoadOne(x: Found, allowed: set<string>, category: string, sourceType: string): seq<Document> {
    if KeepFile(x.file.name, allowed) && x.file.text.Some? then
      [Document(x.file.text.value, JoinPath(x.dir, x.file.name), category, sourceType)]
    else []
  }

  /** The documents for the files met, in order. Every one carries the given category and source type. */
  function LoadAll(xs: seq<Found>, allowed: set<string>, category: string, sourceType: string): (r: seq<Document>)
    ensures |r| <= |xs|
    ensures forall i :: 0 <= i < |r| ==> r[i].category == category && r[i].sourceType == sourceType
  {
    if xs == [] then []
    else LoadOne(xs[0], allowed, category, sourceType) + LoadAll(xs[1..], allowed, category, sourceType)
  }

  lemma {:induction false} LoadAllAppend(a: seq<Found>, b: seq<Found>, allowed: set<string>, category: string, sourceType: string)
    ensures LoadAll(a + b, allowed, category, sourceType)
         == LoadAll(a, allowed, category, sourceType) + LoadAll(b, allowed, category, sourceType)
  {
    if a == [] {
      assert a + b == b;
    } else {
      assert (a + b)[0] == a[0];
      assert (a + b)[1..] == a[1..] + b;
      LoadAllAppend(a[1..], b, allowed, category, sourceType);
    }
  }

  /** Loading one more file met appends its document, if any. */
  lemma LoadAllSnoc(xs: seq<Found>, i: nat, allowed: set<string>, category: string, sourceType: string)
    requires i < |xs|
    ensures LoadAll(xs[..i + 1], allowed, category, sourceType)
         == LoadAll(xs[..i], allowed, category, sourceType) + LoadOne(xs[i], allowed, category, sourceType)
  {
    assert xs[..i + 1] == xs[..i] + [xs[i]];
    LoadAllAppend(xs[..i], [xs[i]], allowed, category, sourceType);
    assert [xs[i]][1..] == [];
  }

  /**
   * A document is loaded exactly for a file that passes the filter and can
   * be read; a file that cannot be read is skipped and the others are still
   * loaded.
   */
  lemma {:induction false} LoadAllIff(xs: seq<Found>, allowed: set<string>, category: string, sourceType: string, doc: Document)
    ensures doc in LoadAll(xs, allowed, category, sourceType)
        <==> exists x :: x in xs && KeepFile(x.file.name, allowed) && x.file.text.Some?
               && doc == Document(x.file.text.value, JoinPath(x.dir, x.file.name), category, sourceType)
  {
    if xs != [] {
      LoadAllIff(xs[1..], allowed, category, sourceType, doc);
      assert xs == [xs[0]] + xs[1..];
      assert forall x :: x in xs <==> x == xs[0] || x in xs[1..];
    }
  }

  /**
   * What loading a tree yields, stated against the whole tree: a document
   * for exactly the readable files that pass the filter and lie under no
   * ignored directory.
   */
  lemma LoadedFromTree(path: string, tree: LocalDir, allowed: set<string>, category: string, sourceType: string, doc: Document)
    ensures doc in LoadAll(Walk(path, tree), allowed, category, sourceType)
        <==> exists x :: x in AllFound(path, [], tree) && IsClean(x)
               && KeepFile(x.file.name, allowed) && x.file.text.Some?
               && doc == Document(x.file.text.value, JoinPath(x.dir, x.file.name), category, sourceType)
  {
    VisitPrunes(path, [], tree);
    LoadAllIff(Walk(path, tree), allowed, category, sourceType, doc);
  }

  // ---------------------------------------------------------------------
  // The imperative walk
  // ---------------------------------------------------------------------

  /** `dirs[:] = [d for d in dirs if d.lower() not in ignored_dirs]`. */
  function Pruned(ds: seq<LocalDir>): (r: seq<LocalDir>)
    ensures |r| <= |ds|
    ensures forall i :: 0 <= i < |r| ==> !Ignored(r[i].name) && r[i] in ds
  {
    if ds == [] then []
    else if Ignored(ds[0].name) then Pruned(ds[1..])
    else [ds[0]] + Pruned(ds[1..])
  }

  /** The frames for the subdirectories of `root`, in order. */
  function Children(root: string, under: seq<string>, ds: seq<LocalDir>): seq<Frame> {
    if ds == [] then []
    else [Frame(JoinPath(root, ds[0].name), under + [ds[0].name], ds[0])] + Children(root, under, ds[1..])
  }

  /** The files still to be met by the frames on the stack. */
  function VisitStack(stack: seq<Frame>): seq<Found> {
    if stack == [] then []
    else Visit(stack[0].root, stack[0].under, stack[0].dir) + VisitStack(stack[1..])
  }

  lemma {:induction false} VisitStackAppend(a: seq<Frame>, b: seq<Frame>)
    ensures VisitStack(a + b) == VisitStack(a) + VisitStack(b)
  {
    if a == [] {
      assert a + b == b;
    } else {
      assert (a + b)[0] == a[0];
      assert (a + b)[1..] == a[1..] + b;
      VisitStackAppend(a[1..], b);
    }
  }

  lemma {:induction false} ChildrenVisit(root: string, under: seq<string>, ds: seq<LocalDir>)
    ensures VisitStack(Children(root, under, Pruned(ds))) == VisitAll(root, under, ds)
  {
    if ds != [] {
      ChildrenVisit(root, under, ds[1..]);
      var later := VisitAll(root, under, ds[1..]);
      if Ignored(ds[0].name) {
        assert Pruned(ds) == Pruned(ds[1..]);
        assert VisitAll(root, under, ds) == [] + later;
      } else {
        var frame := Frame(JoinPath(root, ds[0].name), under + [ds[0].name], ds[0]);
        var rest := Children(root, under, Pruned(ds[1..]));
        assert Pruned(ds) == [ds[0]] + Pruned(ds[1..]);
        assert ([ds[0]] + Pruned(ds[1..]))[1..] == Pruned(ds[1..]);
        var c := Children(root, under, Pruned(ds));
        assert c == [frame] + rest;
        assert c[1..] == rest;
        assert VisitStack(c) == Visit(frame.root, frame.under, frame.dir) + VisitStack(rest);
      }
    }
  }

  function DirSize(d: LocalDir): nat {
    1 + DirsSize(d.subdirs)
  }

  function DirsSize(ds: seq<LocalDir>): nat {
    if ds == [] then 0 else DirSize(ds[0]) + DirsSize(ds[1..])
  }

  function StackSize(stack: seq<Frame>): nat {
    if stack == [] then 0 else DirSize(stack[0].dir) + StackSize(stack[1..])
  }

  lemma {:induction false} StackSizeAppend(a: seq<Frame>, b: seq<Frame>)
    ensures StackSize(a + b) == StackSize(a) + StackSize(b)
  {
    if a == [] {
      assert a + b == b;
    } else {
      assert (a + b)[0] == a[0];
      assert (a + b)[1..] == a[1..] + b;
      StackSizeAppend(a[1..], b);
    }
  }

  lemma {:induction false} ChildrenSize(root: string, under: seq<string>, ds: seq<LocalDir>)
    ensures StackSize(Children(root, under, Pruned(ds))) <= DirsSize(ds)
  {
    if ds != [] {
      ChildrenSize(root, under, ds[1..]);
      if !Ignored(ds[0].name) {
        assert Pruned(ds) == [ds[0]] + Pruned(ds[1..]);
      }
    }
  }

  /**
   * One step of the walk: visiting the front directory loads its own files,
   * then the walk goes on with its kept subdirectories in front of the rest
   * of the stack, which is smaller.
   */
  lemma WalkStep(stack: seq<Frame>, allowed: set<string>, category: string, sourceType: string)
    requires stack != []
    ensures var frame := stack[0];
      var next := Children(frame.root, frame.under, Pruned(frame.dir.subdirs)) + stack[1..];
      && LoadAll(VisitStack(stack), allowed, category, sourceType)
         == LoadAll(FilesHere(frame.root, frame.under, frame.dir.files), allowed, category, sourceType)
          + LoadAll(VisitStack(next), allowed, category, sourceType)
      && StackSize(next) < StackSize(stack)
  {
    WalkStepLoads(stack, allowed, category, sourceType);
    WalkStepShrinks(stack);
  }

  lemma WalkStepLoads(stack: seq<Frame>, allowed: set<string>, category: string, sourceType: string)
    requires stack != []
    ensures var frame := stack[0];
      LoadAll(VisitStack(stack), allowed, category, sourceType)
      == LoadAll(FilesHere(frame.root, frame.under, frame.dir.files), allowed, category, sourceType)
       + LoadAll(VisitStack(Children(frame.root, frame.under, Pruned(frame.dir.subdirs)) + stack[1..]), allowed, category, sourceType)
  {
    var frame, rest := stack[0], stack[1..];
    var here := FilesHere(frame.root, frame.under, frame.dir.files);
    var children := Children(frame.root, frame.under, Pruned(frame.dir.subdirs));
    var sub := VisitAll(frame.root, frame.under, frame.dir.subdirs);
    var later := VisitStack(rest);
    assert VisitStack(stack) == (here + sub) + later;
    ChildrenVisit(frame.root, frame.under, frame.dir.subdirs);
    VisitStackAppend(children, rest);
    AppendAssoc(here, sub, later);
    LoadAllAppend(here, sub + later, allowed, category, sourceType);
  }

  lemma WalkStepShrinks(stack: seq<Frame>)
    requires stack != []
    ensures var frame := stack[0];
      StackSize(Children(frame.root, frame.under, Pruned(frame.dir.subdirs)) + stack[1..]) < StackSize(stack)
  {
    var frame := stack[0];
    var children := Children(frame.root, frame.under, Pruned(frame.dir.subdirs));
    ChildrenSize(frame.root, frame.under, frame.dir.subdirs);
    StackSizeAppend(children, stack[1..]);
  }

  lemma VisitStackSingle(path: string, tree: LocalDir)
    ensures VisitStack([Frame(path, [], tree)]) == Walk(path, tree)
  {
    assert VisitStack([Frame(path, [], tree)]) == Walk(path, tree) + VisitStack([]);
  }

  /** The inner `for file in files` loop: load every file of one directory that passes the filter and can be read. */
  method LoadFiles(root: string, under: seq<string>, files: seq<LocalFile>,
                   allowed: set<string>, category: string, sourceType: string)
    returns (docs: seq<Document>)
    ensures docs == LoadAll(FilesHere(root, under, files), allowed, category, sourceType)
  {
    var here := FilesHere(root, under, files);
    docs := [];
    for i := 0 to |files|
      invariant docs == LoadAll(here[..i], allowed, category, sourceType)
    {
      var file := files[i];
      LoadAllSnoc(here, i, allowed, category, sourceType);
      if KeepFile(file.name, allowed) {
        match file.text {
          case Some(text) =>
            docs := docs + [Document(text, JoinPath(root, file.name), category, sourceType)];
          case None =>
        }
      }
    }
    assert here[..|files|] == here;
  }

  /**
   * `load_documents_from_path`: a top-down walk with a stack of directories
   * still to visit, the pruned subdirectories pushed in front so they are
   * visited before the directory's later siblings.
   */
  method LoadDocumentsFromPath(path: string, tree: LocalDir, category: string, sourceType: string,
                               allowedExtensions: Option<set<string>>)
    returns (allDocuments: seq<Document>)
    ensures allDocuments == LoadAll(Walk(path, tree), AllowedOrDefault(allowedExtensions), category, sourceType)
  {
    var allowed := if allowedExtensions.None? then DefaultExtensions else allowedExtensions.value;
    assert allowed == AllowedOrDefault(allowedExtensions);
    allDocuments := [];
    var stack := [Frame(path, [], tree)];
    VisitStackSingle(path, tree);
    while stack != []
      invariant LoadAll(Walk(path, tree), allowed, category, sourceType)
             == allDocuments + LoadAll(VisitStack(stack), allowed, category, sourceType)
      decreases StackSize(stack)
    {
      var frame := stack[0];
      var dirs := Pruned(frame.dir.subdirs);
      var docs := LoadFiles(frame.root, frame.under, frame.dir.files, allowed, category, sourceType);
      WalkStep(stack, allowed, category, sourceType);
      var next := Children(frame.root, frame.under, dirs) + stack[1..];
      ghost var later := LoadAll(VisitStack(next), allowed, category, sourceType);
      AppendAssoc(allDocuments, docs, later);
      allDocuments := allDocuments + docs;
      stack := next;
    }
  }

  // ---------------------------------------------------------------------
  // The filter on examples
  // ---------------------------------------------------------------------

  /** Test and mock files are skipped whatever their extension. */
  lemma TestAndMockFilesSkipped(allowed: set<string>)
    ensures !KeepFile("foo_test.py", allowed)
    ensures !KeepFile("test_bar.go", allowed)
    ensures !KeepFile("Mock_Client.go", allowed)
  {
    assert Lower("foo_test.py")[3..9] == "_test.";
    assert OccursAt(Lower("foo_test.py"), "_test.", 3);
    assert Lower("test_bar.go")[..5] == "test_";
    assert Lower("Mock_Client.go")[..5] == "mock_";
  }

  /** The extension check is case-sensitive: `README.MD` is not a `.md` file. */
  lemma ExtensionCaseSensitive()
    ensures !KeepFile("README.MD", DefaultExtensions)
    ensures KeepFile("README.md", DefaultExtensions)
  {
    UpperExtensionRejected();
    LowerExtensionKept();
  }

  /** Every default extension ends in a lower-case letter. */
  lemma DefaultExtensionsEndLower()
    ensures forall ext :: ext in DefaultExtensions ==> |ext| > 0 && 'a' <= ext[|ext| - 1] <= 'z'
  {
  }

  lemma UpperExtensionRejected()
    ensures !KeepFile("README.MD", DefaultExtensions)
  {
    var n := "README.MD";
    DefaultExtensionsEndLower();
    forall ext | ext in DefaultExtensions ensures !EndsWith(n, ext) {
      if |ext| <= |n| {
        assert n[|n| - |ext|..][|ext| - 1] == 'D';
      }
    }
  }

  lemma LowerExtensionKept()
    ensures KeepFile("README.md", DefaultExtensions)
  {
    var n := "README.md";
    var l := Lower(n);
    assert l == "readme.md";
    assert l[0] == 'r';
    forall i: nat | i <= |l| ensures !OccursAt(l, "_test.", i) && !OccursAt(l, "_mock.", i) {
      if i + 6 <= |l| {
        assert l[i..i + 6][0] != '_';
      }
    }
    assert EndsWith(n, ".md");
  }

  /** A cloned repository contributes only `.go` files. */
  lemma RepositoryLoadsOnlyGo(name: string)
    requires KeepFile(name, RepositoryExtensions)
    ensures EndsWith(name, ".go")
  {
  }
}
