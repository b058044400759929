/**
 * `download_github_directory` and `download_github_file` of
 * `rag_builder.py`: a first-in first-out walk over a remote directory tree
 * that downloads every file it meets.
 *
 * The remote repository is an abstract finite tree. Each directory carries
 * the listing the remote returns for it, or `Unlistable` when asking for it
 * raises; whether a single file can be fetched is a predicate on its path.
 */
module RemoteWalk {
  import opened Text
  import opened GithubUrl

  /** An item of a remote listing (`content_file.type == 'dir'` or not). */
  datatype Entry =
    | RemoteFile(path: string)
    | RemoteDir(path: string, listing: Listing)

  /** What `repo.get_contents(path)` returns for a directory, or the failure it raises. */
  datatype Listing =
    | Listed(entries: seq<Entry>)
    | Unlistable

  function Size(e: Entry): nat {
    match e
    case RemoteFile(_) => 1
    case RemoteDir(_, Unlistable) => 1
    case RemoteDir(_, Listed(es)) => 1 + QueueSize(es)
  }

  /** The number of entries in a queue and all the trees below them. */
  function QueueSize(q: seq<Entry>): nat {
    if q == [] then 0 else Size(q[0]) + QueueSize(q[1..])
  }

  lemma {:induction false} QueueSizeAppend(a: seq<Entry>, b: seq<Entry>)
    ensures QueueSize(a + b) == QueueSize(a) + QueueSize(b)
  {
    if a == [] {
      assert a + b == b;
    } else {
      assert (a + b)[0] == a[0];
      assert (a + b)[1..] == a[1..] + b;
      QueueSizeAppend(a[1..], b);
    }
  }

  /**
   * The walk as the loop performs it: pop the front entry; a file is handed
   * to the single-file download, a listed directory appends its entries to
   * the back, and a directory whose listing raises ends the walk. The
   * result is the sequence of file paths handed over and whether the walk
   * was cut short.
   */
  function Bfs(q: seq<Entry>): (r: (seq<string>, bool))
    decreases QueueSize(q)
  {
    if q == [] then ([], false)
    else
      assert QueueSize(q) == Size(q[0]) + QueueSize(q[1..]);
      match q[0]
      case RemoteFile(p) =>
        var rest := Bfs(q[1..]);
        ([p] + rest.0, rest.1)
      case RemoteDir(_, Unlistable) => ([], true)
      case RemoteDir(_, Listed(es)) =>
        QueueSizeAppend(q[1..], es);
        Bfs(q[1..] + es)
  }

  // ---------------------------------------------------------------------
  // Reference definitions: the tree level by level, and all its files
  // ---------------------------------------------------------------------

  /** The paths of the files among the entries of one level. */
  function FilesOf(q: seq<Entry>): seq<string> {
    if q == [] then []
    else (if q[0].RemoteFile? then [q[0].path] else []) + FilesOf(q[1..])
  }

  /** The entries of the listable directories of one level, in order: the next level. */
  function NextLevel(q: seq<Entry>): seq<Entry> {
    if q == [] then []
    else
      (if q[0].RemoteDir? && q[0].listing.Listed? then q[0].listing.entries else [])
      + NextLevel(q[1..])
  }

  /** Some directory of this level cannot be listed. */
  predicate TopUnlistable(q: seq<Entry>) {
    q != [] && ((q[0].RemoteDir? && q[0].listing.Unlistable?) || TopUnlistable(q[1..]))
  }

  lemma {:induction false} NextLevelSmaller(q: seq<Entry>)
    ensures QueueSize(NextLevel(q)) + |q| <= QueueSize(q)
  {
    if q != [] {
      NextLevelSmaller(q[1..]);
      var here := if q[0].RemoteDir? && q[0].listing.Listed? then q[0].listing.entries else [];
      QueueSizeAppend(here, NextLevel(q[1..]));
    }
  }

  /** Breadth-first order: the files of each level, level after level. */
  function LevelOrder(q: seq<Entry>): seq<string>
    decreases QueueSize(q)
  {
    if q == [] then []
    else
      NextLevelSmaller(q);
      FilesOf(q) + LevelOrder(NextLevel(q))
  }

  /** Every directory reachable from the queue can be listed. */
  predicate AllListable(q: seq<Entry>)
    decreases QueueSize(q)
  {
    q == [] || (!TopUnlistable(q) && (NextLevelSmaller(q); AllListable(NextLevel(q))))
  }

  /** All files below the entries, depth first: the files a complete walk must reach. */
  function AllFiles(q: seq<Entry>): seq<string> {
    if q == [] then [] else EntryFiles(q[0]) + AllFiles(q[1..])
  }

  function EntryFiles(e: Entry): seq<string> {
    match e
    case RemoteFile(p) => [p]
    case RemoteDir(_, Unlistable) => []
    case RemoteDir(_, Listed(es)) => AllFiles(es)
  }

  // ---------------------------------------------------------------------
  // The walk is breadth-first
  // ---------------------------------------------------------------------

  /**
   * Walking q followed by r first hands over the files of q; then it walks
   * r followed by the next level of q. If a directory of q cannot be
   * listed, the walk stops early, having handed over a prefix of q's files.
   */
  predicate SplitsAfter(q: seq<Entry>, r: seq<Entry>) {
    && (!TopUnlistable(q) ==>
          Bfs(q + r) == (FilesOf(q) + Bfs(r + NextLevel(q)).0, Bfs(r + NextLevel(q)).1))
    && (TopUnlistable(q) ==> Bfs(q + r).1 && Bfs(q + r).0 <= FilesOf(q))
  }

  lemma PrefixCons(x: string, a: seq<string>, b: seq<string>)
    requires a <= b
    ensures [x] + a <= [x] + b
  {
    assert ([x] + b)[..|a| + 1] == [x] + b[..|a|];
  }

  lemma FileSplitStep(q: seq<Entry>, r: seq<Entry>)
    requires q != [] && q[0].RemoteFile?
    requires SplitsAfter(q[1..], r)
    ensures SplitsAfter(q, r)
  {
    var p := q[0].path;
    assert (q + r)[0] == q[0];
    assert (q + r)[1..] == q[1..] + r;
    var rest := Bfs(q[1..] + r);
    assert Bfs(q + r) == ([p] + rest.0, rest.1);
    var files := FilesOf(q[1..]);
    assert FilesOf(q) == [p] + files;
    assert TopUnlistable(q) == TopUnlistable(q[1..]);
    if TopUnlistable(q) {
      PrefixCons(p, rest.0, files);
    } else {
      assert NextLevel(q) == NextLevel(q[1..]);
      var tail := Bfs(r + NextLevel(q)).0;
      assert [p] + (files + tail) == ([p] + files) + tail;
    }
  }

  lemma DirSplitStep(q: seq<Entry>, r: seq<Entry>)
    requires q != [] && q[0].RemoteDir? && q[0].listing.Listed?
    requires SplitsAfter(q[1..], r + q[0].listing.entries)
    ensures SplitsAfter(q, r)
  {
    var es := q[0].listing.entries;
    assert (q + r)[0] == q[0];
    assert (q + r)[1..] == q[1..] + r;
    assert Bfs(q + r) == Bfs(q[1..] + r + es);
    assert q[1..] + r + es == q[1..] + (r + es);
    assert FilesOf(q) == FilesOf(q[1..]);
    assert NextLevel(q) == es + NextLevel(q[1..]);
    assert TopUnlistable(q) == TopUnlistable(q[1..]);
    assert r + es + NextLevel(q[1..]) == r + NextLevel(q);
  }

  lemma {:induction false} BfsSplit(q: seq<Entry>, r: seq<Entry>)
    ensures !TopUnlistable(q) ==>
      Bfs(q + r) == (FilesOf(q) + Bfs(r + NextLevel(q)).0, Bfs(r + NextLevel(q)).1)
    ensures TopUnlistable(q) ==> Bfs(q + r).1 && Bfs(q + r).0 <= FilesOf(q)
    decreases |q|
  {
    if q == [] {
      assert q + r == r;
      assert r + NextLevel(q) == r;
      assert FilesOf(q) + Bfs(r).0 == Bfs(r).0;
    } else if q[0].RemoteFile? {
      BfsSplit(q[1..], r);
      FileSplitStep(q, r);
    } else if q[0].listing.Listed? {
      BfsSplit(q[1..], r + q[0].listing.entries);
      DirSplitStep(q, r);
    } else {
      assert (q + r)[0] == q[0];
    }
  }

  /**
   * The walk hands over the files in breadth-first order: all of them when
   * every directory can be listed, a prefix of them otherwise, and it is
   * cut short exactly when some reachable directory cannot be listed.
   */
  lemma {:induction false} BfsIsLevelOrder(q: seq<Entry>)
    ensures Bfs(q).1 <==> !AllListable(q)
    ensures Bfs(q).0 <= LevelOrder(q)
    ensures !Bfs(q).1 ==> Bfs(q).0 == LevelOrder(q)
    decreases QueueSize(q)
  {
    if q != [] {
      BfsSplit(q, []);
      assert q + [] == q;
      assert [] + NextLevel(q) == NextLevel(q);
      NextLevelSmaller(q);
      if !TopUnlistable(q) {
        BfsIsLevelOrder(NextLevel(q));
      }
    }
  }

  lemma {:induction false} AllFilesAppend(a: seq<Entry>, b: seq<Entry>)
    ensures AllFiles(a + b) == AllFiles(a) + AllFiles(b)
  {
    if a == [] {
      assert a + b == b;
    } else {
      assert (a + b)[0] == a[0];
      assert (a + b)[1..] == a[1..] + b;
      AllFilesAppend(a[1..], b);
    }
  }

  lemma Regroup<T>(f: seq<T>, h: seq<T>, all: seq<T>, files: seq<T>, next: seq<T>)
    requires multiset(all) == multiset(files) + multiset(next)
    ensures multiset((f + h) + all) == multiset(f + files) + multiset(h + next)
  {
  }

  lemma {:induction false} AllFilesByLevel(q: seq<Entry>)
    ensures multiset(AllFiles(q)) == multiset(FilesOf(q)) + multiset(AllFiles(NextLevel(q)))
  {
    if q != [] {
      var e, rest := q[0], q[1..];
      AllFilesByLevel(rest);
      var here := if e.RemoteDir? && e.listing.Listed? then e.listing.entries else [];
      var file := if e.RemoteFile? then [e.path] else [];
      assert NextLevel(q) == here + NextLevel(rest);
      AllFilesAppend(here, NextLevel(rest));
      assert AllFiles(here) == [] + AllFiles(here);
      assert EntryFiles(e) == file + AllFiles(here);
      assert AllFiles(q) == EntryFiles(e) + AllFiles(rest);
      assert FilesOf(q) == file + FilesOf(rest);
      Regroup(file, AllFiles(here), AllFiles(rest), FilesOf(rest), AllFiles(NextLevel(rest)));
    }
  }

  /** Breadth-first order reaches every file of the tree exactly once (as often as it occurs). */
  lemma {:induction false} LevelOrderIsAllFiles(q: seq<Entry>)
    ensures multiset(LevelOrder(q)) == multiset(AllFiles(q))
    decreases QueueSize(q)
  {
    if q != [] {
      NextLevelSmaller(q);
      LevelOrderIsAllFiles(NextLevel(q));
      AllFilesByLevel(q);
    }
  }

  /** When no directory listing fails, every file below the queue is handed over exactly once. */
  lemma BfsReachesEveryFile(q: seq<Entry>)
    requires AllListable(q)
    ensures multiset(Bfs(q).0) == multiset(AllFiles(q))
  {
    BfsIsLevelOrder(q);
    LevelOrderIsAllFiles(q);
  }

  // ---------------------------------------------------------------------
  // Downloads
  // ---------------------------------------------------------------------

  /**
   * `download_github_file`: the local path of the copy when the file could
   * be fetched (`found`), and nothing when fetching or writing failed.
   */
  function DownloadGithubFile(repoName: string, filePath: string, found: bool): (r: seq<string>)
    ensures |r| <= 1 && (r != [] <==> found)
    ensures found ==> r == [LocalFilePath(repoName, filePath)]
    ensures forall f :: f in r ==> StartsWith(f, DownloadedRunbooksDir + "/")
    ensures '/' !in repoName ==>
      forall f :: f in r ==> |f| > |DownloadedRunbooksDir| && '/' !in f[|DownloadedRunbooksDir| + 1..]
  {
    if found then
      var path := LocalFilePath(repoName, filePath);
      assert path[|DownloadedRunbooksDir| + 1..] == LocalFileName(repoName, filePath);
      if '/' in repoName then [path]
      else
        LocalFileNameIsFlat(repoName, filePath);
        [path]
    else []
  }

  /** The downloads made for a sequence of paths handed over, in order. */
  function Fetched(repoName: string, paths: seq<string>, fetchable: string -> bool): seq<string> {
    if paths == [] then []
    else DownloadGithubFile(repoName, paths[0], fetchable(paths[0])) + Fetched(repoName, paths[1..], fetchable)
  }

  lemma {:induction false} FetchedAppend(repoName: string, a: seq<string>, b: seq<string>, fetchable: string -> bool)
    ensures Fetched(repoName, a + b, fetchable) == Fetched(repoName, a, fetchable) + Fetched(repoName, b, fetchable)
  {
    if a == [] {
      assert a + b == b;
    } else {
      var d := DownloadGithubFile(repoName, a[0], fetchable(a[0]));
      assert (a + b)[0] == a[0];
      assert (a + b)[1..] == a[1..] + b;
      FetchedAppend(repoName, a[1..], b, fetchable);
      var fa, fb := Fetched(repoName, a[1..], fetchable), Fetched(repoName, b, fetchable);
      assert Fetched(repoName, a + b, fetchable) == d + (fa + fb);
      assert Fetched(repoName, a, fetchable) == d + fa;
      assert d + (fa + fb) == (d + fa) + fb;
    }
  }

  /** Every download is of a file the walk handed over that could be fetched. */
  lemma {:induction false} FetchedOnlyFetchable(repoName: string, paths: seq<string>, fetchable: string -> bool)
    ensures |Fetched(repoName, paths, fetchable)| <= |paths|
    ensures forall f :: f in Fetched(repoName, paths, fetchable) ==>
      exists p :: p in paths && fetchable(p) && f == LocalFilePath(repoName, p)
  {
    if paths != [] {
      FetchedOnlyFetchable(repoName, paths[1..], fetchable);
    }
  }

  /**
   * `download_github_directory` once the start directory has been listed
   * (`start`): a queue that pops from the front and extends at the back.
   * A listing that raises ends the walk, and the downloads made so far
   * are returned.
   */
  method DownloadGithubDirectory(start: Listing, repoName: string, fetchable: string -> bool)
    returns (downloaded: seq<string>)
    ensures start.Unlistable? ==> downloaded == []
    ensures start.Listed? ==> downloaded == Fetched(repoName, Bfs(start.entries).0, fetchable)
  {
    downloaded := [];
    if start.Unlistable? {
      return;
    }
    var queue := start.entries;
    while queue != []
      invariant Fetched(repoName, Bfs(start.entries).0, fetchable)
             == downloaded + Fetched(repoName, Bfs(queue).0, fetchable)
      decreases QueueSize(queue)
    {
      var entry := queue[0];
      var rest := queue[1..];
      assert QueueSize(queue) == Size(entry) + QueueSize(rest);
      match entry {
        case RemoteFile(p) =>
          FetchedAppend(repoName, [p], Bfs(rest).0, fetchable);
          downloaded := downloaded + DownloadGithubFile(repoName, p, fetchable(p));
          queue := rest;
        case RemoteDir(_, Unlistable) =>
          return;
        case RemoteDir(_, Listed(es)) =>
          QueueSizeAppend(rest, es);
          queue := rest + es;
      }
    }
  }

  /**
   * What a directory walk downloads, stated against the tree: the fetchable
   * files in breadth-first order, all of them when every directory can be
   * listed.
   */
  lemma DirectoryDownloadsAreLevelOrder(start: seq<Entry>, repoName: string, fetchable: string -> bool)
    ensures exists k :: (0 <= k <= |LevelOrder(start)|
      && Fetched(repoName, Bfs(start).0, fetchable) == Fetched(repoName, LevelOrder(start)[..k], fetchable))
    ensures AllListable(start) ==>
      Fetched(repoName, Bfs(start).0, fetchable) == Fetched(repoName, LevelOrder(start), fetchable)
  {
    BfsIsLevelOrder(start);
    var k := |Bfs(start).0|;
    assert Bfs(start).0 == LevelOrder(start)[..k];
  }
}
