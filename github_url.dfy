/**
 * Source resolver of `rag_builder.py`: classify a GitHub URL as a file
 * (`/blob/`), a directory tree (`/tree/`) or a bare repository, and name
 * the local copy of a downloaded file.
 *
 * The three patterns are matched with Python's `re.match`, which anchors
 * at the start only. Each `([^/]+)` group takes the longest run of
 * characters up to the next '/', and `(.+)`/`(.*)` take the text up to the
 * first newline, since `.` does not match a newline without DOTALL.
 */
module GithubUrl {
  import opened Wrappers
  import opened Text

  /** What `parse_github_url` returns: only file and tree locators carry a branch and a path. */
  datatype Locator =
    | FileLocator(org: string, repo: string, branch: string, path: string)
    | TreeLocator(org: string, repo: string, branch: string, path: string)
    | RepoLocator(org: string, repo: string)

  const Host: string := "https://github.com/"

  /** A non-empty text without '/', as one `([^/]+)` group can capture it. */
  predicate IsSegment(s: string) {
    s != [] && '/' !in s
  }

  /** The longest prefix of s without `stop`. */
  function TakeUntil(s: string, stop: char): (r: string)
    ensures stop !in r
    ensures |r| <= |s| && r == s[..|r|]
    ensures |r| < |s| ==> s[|r|] == stop
  {
    if s == [] || s[0] == stop then [] else [s[0]] + TakeUntil(s[1..], stop)
  }

  /** What `[^/]+` (or `[^/]*`) consumes: the longest prefix without '/'. */
  function Segment(s: string): string {
    TakeUntil(s, '/')
  }

  /** What `.*` consumes: the longest prefix without a newline. */
  function Line(s: string): string {
    TakeUntil(s, '\n')
  }

  /** A stop-free text followed by the stop character, or by nothing, is taken whole. */
  lemma {:induction false} TakeUntilOf(a: string, stop: char, rest: string)
    requires stop !in a
    requires rest == [] || rest[0] == stop
    ensures TakeUntil(a + rest, stop) == a
  {
    if a == [] {
      assert a + rest == rest;
    } else {
      assert (a + rest)[1..] == a[1..] + rest;
      TakeUntilOf(a[1..], stop, rest);
    }
  }

  lemma SegmentOfSegment(a: string, rest: string)
    requires '/' !in a
    requires rest == [] || rest[0] == '/'
    ensures Segment(a + rest) == a
  {
    TakeUntilOf(a, '/', rest);
  }

  /** A line ends at the first line break, or at the end of the text. */
  lemma LineOf(a: string, rest: string)
    requires '\n' !in a && (rest == [] || rest[0] == '\n')
    ensures Line(a + rest) == a
  {
    TakeUntilOf(a, '\n', rest);
  }

  /**
   * The prefix all three patterns share, `https://github\.com/([^/]+)/([^/]+)`:
   * the organisation, the repository and the text after the repository.
   */
  function OrgRepo(url: string): (r: Option<(string, string, string)>)
    ensures r.Some? ==>
      var (org, repo, tail) := r.value;
      IsSegment(org) && IsSegment(repo) && (tail == [] || tail[0] == '/')
      && url == RepoUrl(org, repo, tail)
  {
    if !StartsWith(url, Host) then None
    else
      var rest := url[|Host|..];
      var org := Segment(rest);
      if org == [] || |org| == |rest| then None
      else
        var rest2 := rest[|org| + 1..];
        var repo := Segment(rest2);
        if repo == [] then None
        else
          var tail := rest2[|repo|..];
          assert rest2 == repo + tail;
          assert rest[|org|..] == "/" + rest2;
          assert rest == org + rest[|org|..];
          assert url == url[..|Host|] + rest;
          Some((org, repo, tail))
  }

  /** The URL of repository `org/repo` followed by `tail`. */
  function RepoUrl(org: string, repo: string, tail: string): string {
    Host + (org + ("/" + (repo + tail)))
  }

  /** The part of the blob pattern after the repository: `/blob/([^/]+)/(.+)`. */
  function BlobTail(tail: string): Option<(string, string)> {
    if !StartsWith(tail, "/blob/") then None
    else
      var t := tail[6..];
      var branch := Segment(t);
      if branch == [] || |branch| == |t| then None
      else
        var path := Line(t[|branch| + 1..]);
        if path == [] then None else Some((branch, path))
  }

  /** The part of the tree pattern after the repository: `/tree/([^/]+)/?(.*)`. */
  function TreeTail(tail: string): Option<(string, string)> {
    if !StartsWith(tail, "/tree/") then None
    else
      var t := tail[6..];
      var branch := Segment(t);
      if branch == [] then None
      else
        var after := t[|branch|..];
        var rest := if after != [] && after[0] == '/' then after[1..] else after;
        Some((branch, Line(rest)))
  }

  /** `https://github\.com/([^/]+)/([^/]+)/blob/([^/]+)/(.+)` */
  function MatchBlob(url: string): Option<Locator> {
    match OrgRepo(url)
    case None => None
    case Some((org, repo, tail)) =>
      match BlobTail(tail)
      case None => None
      case Some((branch, path)) => Some(FileLocator(org, repo, branch, path))
  }

  /** `https://github\.com/([^/]+)/([^/]+)/tree/([^/]+)/?(.*)`, an empty path read as '.' */
  function MatchTree(url: string): Option<Locator> {
    match OrgRepo(url)
    case None => None
    case Some((org, repo, tail)) =>
      match TreeTail(tail)
      case None => None
      case Some((branch, path)) => Some(TreeLocator(org, repo, branch, if path == [] then "." else path))
  }

  /** `https://github\.com/([^/]+)/([^/]+)/?` */
  function MatchRepo(url: string): Option<Locator> {
    match OrgRepo(url)
    case None => None
    case Some((org, repo, _)) => Some(RepoLocator(org, repo))
  }

  /** `parse_github_url`: blob first, then tree, then the bare repository; `None` when nothing matches. */
  function ParseGithubUrl(url: string): Option<Locator> {
    if MatchBlob(url).Some? then MatchBlob(url)
    else if MatchTree(url).Some? then MatchTree(url)
    else MatchRepo(url)
  }

  /** The organisation and repository of a repository URL are read back exactly. */
  lemma {:induction false} OrgRepoOf(o: string, r: string, tail: string)
    requires IsSegment(o) && IsSegment(r) && (tail == [] || tail[0] == '/')
    ensures OrgRepo(RepoUrl(o, r, tail)) == Some((o, r, tail))
  {
    var url := RepoUrl(o, r, tail);
    assert url[..|Host|] == Host;
    var rest := url[|Host|..];
    assert rest == o + ("/" + (r + tail));
    SegmentOfSegment(o, "/" + (r + tail));
    var rest2 := rest[|o| + 1..];
    assert rest2 == r + tail;
    SegmentOfSegment(r, tail);
    assert rest2[|r|..] == tail;
  }

  lemma BlobTailOf(b: string, p: string, q: string)
    requires IsSegment(b) && p != [] && '\n' !in p && (q == [] || q[0] == '\n')
    ensures BlobTail("/blob/" + (b + ("/" + (p + q)))) == Some((b, p))
  {
    var tail := "/blob/" + (b + ("/" + (p + q)));
    assert tail[..6] == "/blob/";
    var t := tail[6..];
    assert t == b + ("/" + (p + q));
    SegmentOfSegment(b, "/" + (p + q));
    assert t[|b| + 1..] == p + q;
    LineOf(p, q);
  }

  lemma TreeTailOf(b: string, p: string, q: string)
    requires IsSegment(b) && '\n' !in p && (q == [] || q[0] == '\n')
    ensures TreeTail("/tree/" + (b + ("/" + (p + q)))) == Some((b, p))
    ensures TreeTail("/tree/" + b) == Some((b, []))
  {
    var tail := "/tree/" + (b + ("/" + (p + q)));
    assert tail[..6] == "/tree/";
    var t := tail[6..];
    assert t == b + ("/" + (p + q));
    SegmentOfSegment(b, "/" + (p + q));
    assert t[|b|..] == "/" + (p + q);
    LineOf(p, q);

    var tail2 := "/tree/" + b;
    assert tail2[..6] == "/tree/";
    assert tail2[6..] == b + [];
    SegmentOfSegment(b, []);
  }

  /** A tail that starts with `/tree/` is not a blob tail, and the other way round. */
  lemma BlobTreeExclusive(tail: string)
    ensures StartsWith(tail, "/tree/") ==> BlobTail(tail).None?
    ensures StartsWith(tail, "/blob/") ==> TreeTail(tail).None?
  {
    if StartsWith(tail, "/tree/") {
      assert tail[1] == 't';
    }
    if StartsWith(tail, "/blob/") {
      assert tail[1] == 'b';
    }
  }

  /**
   * A blob URL with a non-empty path parses to a file locator with exactly
   * its four parts. The pattern's `.` stops at a line break, so the path is
   * read up to the first one and whatever follows it (`q`) is ignored.
   */
  lemma ParseFileUrl(o: string, r: string, b: string, p: string, q: string)
    requires IsSegment(o) && IsSegment(r) && IsSegment(b)
    requires p != [] && '\n' !in p && (q == [] || q[0] == '\n')
    ensures ParseGithubUrl(RepoUrl(o, r, "/blob/" + (b + ("/" + (p + q))))) == Some(FileLocator(o, r, b, p))
  {
    OrgRepoOf(o, r, "/blob/" + (b + ("/" + (p + q))));
    BlobTailOf(b, p, q);
  }

  /** A repository URL whose tail is a tree tail parses to that tree locator. */
  lemma ParseViaTree(o: string, r: string, tail: string, b: string, p: string)
    requires OrgRepo(RepoUrl(o, r, tail)) == Some((o, r, tail))
    requires StartsWith(tail, "/tree/") && TreeTail(tail) == Some((b, p))
    ensures ParseGithubUrl(RepoUrl(o, r, tail)) == Some(TreeLocator(o, r, b, if p == [] then "." else p))
  {
    BlobTreeExclusive(tail);
  }

  /**
   * A tree URL yields the text after `tree/<branch>/` as its path, or '.'
   * when that text is empty; as for blob URLs, the path stops at the first
   * line break.
   */
  lemma ParseTreeUrl(o: string, r: string, b: string, p: string, q: string)
    requires IsSegment(o) && IsSegment(r) && IsSegment(b)
    requires '\n' !in p && (q == [] || q[0] == '\n')
    ensures ParseGithubUrl(RepoUrl(o, r, "/tree/" + (b + ("/" + (p + q)))))
         == Some(TreeLocator(o, r, b, if p == [] then "." else p))
    ensures ParseGithubUrl(RepoUrl(o, r, "/tree/" + b)) == Some(TreeLocator(o, r, b, "."))
  {
    TreeTailOf(b, p, q);
    var tail := "/tree/" + (b + ("/" + (p + q)));
    OrgRepoOf(o, r, tail);
    assert tail[..6] == "/tree/";
    ParseViaTree(o, r, tail, b, p);
    var tail2 := "/tree/" + b;
    OrgRepoOf(o, r, tail2);
    assert tail2[..6] == "/tree/";
    ParseViaTree(o, r, tail2, b, []);
  }

  /** A repository URL whose tail is neither a blob nor a tree tail parses to the repository. */
  lemma ParseViaRepo(o: string, r: string, tail: string)
    requires OrgRepo(RepoUrl(o, r, tail)) == Some((o, r, tail))
    requires BlobTail(tail).None? && TreeTail(tail).None?
    ensures ParseGithubUrl(RepoUrl(o, r, tail)) == Some(RepoLocator(o, r))
  {
  }

  lemma BlobTailWithoutPath(b: string)
    requires IsSegment(b)
    ensures BlobTail("/blob/" + b).None? && TreeTail("/blob/" + b).None?
    ensures BlobTail("/blob/" + (b + "/")).None? && TreeTail("/blob/" + (b + "/")).None?
  {
    var tail := "/blob/" + b;
    assert tail[..6] == "/blob/";
    assert tail[6..] == b + [];
    SegmentOfSegment(b, []);
    BlobTreeExclusive(tail);

    var tail2 := "/blob/" + (b + "/");
    assert tail2[..6] == "/blob/";
    assert tail2[6..] == b + "/";
    SegmentOfSegment(b, "/");
    assert tail2[6..][|b| + 1..] == [];
    BlobTreeExclusive(tail2);
  }

  /** `.../blob/<branch>` and `.../blob/<branch>/` are not file URLs: they fall back to the repository. */
  lemma ParseBlobWithoutPath(o: string, r: string, b: string)
    requires IsSegment(o) && IsSegment(r) && IsSegment(b)
    ensures ParseGithubUrl(RepoUrl(o, r, "/blob/" + b)) == Some(RepoLocator(o, r))
    ensures ParseGithubUrl(RepoUrl(o, r, "/blob/" + (b + "/"))) == Some(RepoLocator(o, r))
  {
    BlobTailWithoutPath(b);
    var tail := "/blob/" + b;
    OrgRepoOf(o, r, tail);
    ParseViaRepo(o, r, tail);
    var tail2 := "/blob/" + (b + "/");
    assert tail2[0] == '/';
    OrgRepoOf(o, r, tail2);
    ParseViaRepo(o, r, tail2);
  }

  /** Any locator carries the organisation and repository named right after the host. */
  lemma ParsedOrgRepo(url: string)
    requires ParseGithubUrl(url).Some?
    ensures OrgRepo(url).Some?
    ensures ParseGithubUrl(url).value.org == OrgRepo(url).value.0
    ensures ParseGithubUrl(url).value.repo == OrgRepo(url).value.1
  {
  }

  /**
   * `parse_github_url` returns `None` exactly when the URL does not start
   * with the host followed by a non-empty organisation, '/', and a
   * non-empty repository name.
   */
  lemma ParseNoneIff(url: string)
    ensures ParseGithubUrl(url) == None
        <==> !exists o, r, tail :: IsSegment(o) && IsSegment(r) && url == RepoUrl(o, r, tail)
  {
    if ParseGithubUrl(url) == None {
      assert OrgRepo(url) == None;
      if o, r, tail :| IsSegment(o) && IsSegment(r) && url == RepoUrl(o, r, tail) {
        assert url[..|Host|] == Host;
        var rest := url[|Host|..];
        assert rest == o + ("/" + (r + tail));
        SegmentOfSegment(o, "/" + (r + tail));
        assert false;
      }
    } else {
      var (o, r, tail) := OrgRepo(url).value;
      assert url == RepoUrl(o, r, tail);
    }
  }

  /** Directory used for a cloned repository (`os.path.join(CLONED_REPOS_DIR, repo_name)`). */
  const ClonedReposDir: string := "./cloned_repos"

  /**
   * The guard of `clone_github_repo`: only a URL that parses to a bare
   * repository locator gets a clone directory; any other URL is skipped.
   */
  function CloneDir(url: string): (r: Option<string>)
    ensures r.Some? <==> ParseGithubUrl(url).Some? && ParseGithubUrl(url).value.RepoLocator?
  {
    match ParseGithubUrl(url)
    case Some(RepoLocator(_, repo)) => Some(ClonedReposDir + "/" + repo)
    case _ => None
  }

  /**
   * `clone_github_repo`: skip anything but a bare repository URL; reuse a
   * non-empty clone directory; otherwise clone, giving the directory on
   * success and nothing when the clone fails.
   */
  function CloneGithubRepo(url: string, alreadyCloned: bool, cloneSucceeds: bool): (r: Option<string>)
    ensures r.Some? ==> r == CloneDir(url)
    ensures r.None? <==> CloneDir(url).None? || (!alreadyCloned && !cloneSucceeds)
  {
    match CloneDir(url)
    case None => None
    case Some(dir) => if alreadyCloned || cloneSucceeds then Some(dir) else None
  }

  /** A blob URL with a path is never cloned. */
  lemma FileUrlIsNotCloned(o: string, r: string, b: string, p: string)
    requires IsSegment(o) && IsSegment(r) && IsSegment(b)
    requires p != [] && '\n' !in p
    ensures CloneDir(RepoUrl(o, r, "/blob/" + (b + ("/" + p)))) == None
  {
    ParseFileUrl(o, r, b, p, []);
    assert p + [] == p;
  }

  /** Directory that single downloaded files are written to. */
  const DownloadedRunbooksDir: string := "./downloaded_runbooks"

  /**
   * The local name of a downloaded file: the repository name, '_', and the
   * path with every '/' replaced by '_'.
   */
  function LocalFileName(repoName: string, filePath: string): (r: string)
    ensures |r| == |repoName| + 1 + |filePath|
    ensures r[..|repoName| + 1] == repoName + "_"
    ensures forall i :: 0 <= i < |filePath| ==>
      r[|repoName| + 1 + i] == (if filePath[i] == '/' then '_' else filePath[i])
  {
    repoName + "_" + ReplaceChar(filePath, '/', '_')
  }

  /** The local name is flat: it has no '/' as long as the repository name has none. */
  lemma LocalFileNameIsFlat(repoName: string, filePath: string)
    requires '/' !in repoName
    ensures '/' !in LocalFileName(repoName, filePath)
  {
    var r := LocalFileName(repoName, filePath);
    forall i | 0 <= i < |r| ensures r[i] != '/' {
      if i < |repoName| {
        assert r[i] == (repoName + "_")[i] == repoName[i];
      } else if i > |repoName| {
        assert r[i] == r[|repoName| + 1 + (i - |repoName| - 1)];
      } else {
        assert r[i] == (repoName + "_")[i];
      }
    }
  }

  /** Paths without '_' get different local names; '/' and '_' are the only characters that collide. */
  lemma LocalFileNameInjective(repoName: string, p1: string, p2: string)
    requires '_' !in p1 && '_' !in p2
    requires LocalFileName(repoName, p1) == LocalFileName(repoName, p2)
    ensures p1 == p2
  {
    var n := LocalFileName(repoName, p1);
    forall i | 0 <= i < |p1| ensures p1[i] == p2[i] {
      if p1[i] == '/' {
        assert n[|repoName| + 1 + i] == '_';
      } else {
        assert n[|repoName| + 1 + i] == p1[i];
      }
    }
  }

  /** Two different paths can share a local name: `a/b` and `a_b` are both saved as `<repo>_a_b`. */
  lemma LocalFileNameCollision(repoName: string)
    ensures LocalFileName(repoName, "a/b") == LocalFileName(repoName, "a_b")
  {
    var n1 := LocalFileName(repoName, "a/b");
    var n2 := LocalFileName(repoName, "a_b");
    assert n1[|repoName| + 2] == '_' == n2[|repoName| + 2];
    assert n1[..|repoName| + 1] == n2[..|repoName| + 1];
    assert n1[|repoName| + 1] == 'a' == n2[|repoName| + 1];
    assert n1[|repoName| + 3] == 'b' == n2[|repoName| + 3];
    assert forall i :: 0 <= i < |n1| ==> n1[i] == n2[i];
  }

  /** `os.path.join(DOWNLOADED_RUNBOOKS_DIR, local_filename)`. */
  function LocalFilePath(repoName: string, filePath: string): string {
    DownloadedRunbooksDir + "/" + LocalFileName(repoName, filePath)
  }
}
