/**
 * `update_index_html` of `generate_docs.py`: the landing page lists the
 * documentation versions found under `front/`. Three parts are rebuilt:
 * the header dropdown (pages of the latest version), the version list
 * (one block per version that has pages, newest first) and the sitemap
 * (every page of every version, by file name).
 *
 * Directory listings are inputs: the entries of `front/` and, for each
 * version directory, the names it holds. Timestamp formatting is a partial
 * function that fails the way `strptime` raises `ValueError`. The markup
 * wrapped around each link is not modelled.
 */
module IndexPage {
  import opened Wrappers
  import opened Text
  import opened Seqs
  import opened Sorting
  import opened Versions
  import DocGeneration

  const HtmlSuffix: string := ".html"

  predicate IsHtml(file: string) {
    EndsWith(file, HtmlSuffix)
  }

  /** `sorted([d for d in listdir(front) if isdir(d) and d.isdigit()], reverse=True)`. */
  function VersionDirs(entries: seq<DirEntry>): (r: seq<string>)
    ensures forall v :: v in r <==> DirEntry(v, true) in entries && IsDigits(v)
    ensures forall i, j :: 0 <= i < j < |r| ==> StrLe(r[j], r[i])
  {
    var names := DigitDirNames(entries);
    var r := SortDescending(names);
    assert forall v :: v in r <==> v in multiset(r);
    assert forall v :: v in names <==> v in multiset(names);
    r
  }

  /** `sorted([f for f in listdir(version) if f.endswith('.html')])`. */
  function HtmlFiles(names: seq<string>): (r: seq<string>)
    ensures forall f :: f in r <==> f in names && IsHtml(f)
    ensures forall i, j :: 0 <= i < j < |r| ==> StrLe(r[i], r[j])
  {
    var html := Filter(names, IsHtml);
    var r := SortAscending(html);
    assert forall f :: f in r <==> f in multiset(r);
    assert forall f :: f in html <==> f in multiset(html);
    r
  }

  /** `doc_file.replace('.html', '').replace('-', ' ').title()`. */
  function DocTitle(file: string): (r: string)
    ensures |r| <= |file|
  {
    DocGeneration.CategoryTitle(RemoveAll(file, HtmlSuffix))
  }

  /**
   * The index shows a generated page under the same title as the page's
   * own heading, as long as the category name does not itself contain
   * ".html".
   */
  lemma DocTitleOfPage(category: string)
    requires !Contains(category, HtmlSuffix)
    ensures DocTitle(category + HtmlSuffix) == DocGeneration.CategoryTitle(category)
  {
    var h := HtmlSuffix;
    assert h == ['.', 'h', 't', 'm', 'l'];
    RemoveAllTrailing(category, h);
  }

  /** A link to `./<version>/<file>` shown as `title`. */
  datatype DocLink = DocLink(version: string, file: string, title: string)

  function LinksTo(version: string, files: seq<string>): seq<DocLink> {
    seq(|files|, k requires 0 <= k < |files| => DocLink(version, files[k], DocTitle(files[k])))
  }

  /** What the page shows for a version: its formatted timestamp, or the name itself. */
  function DisplayDate(version: string, format: string -> Option<string>): string {
    if format(version).Some? then format(version).value else version
  }

  // ---------------------------------------------------------------------
  // Header dropdown
  // ---------------------------------------------------------------------

  /**
   * The dropdown: the pages of the latest version only, in file-name order.
   * It is empty when there is no version or when the latest version has no
   * page; older versions are never used instead.
   */
  function Dropdown(versionDirs: seq<string>, filesOf: string -> seq<string>): (r: seq<DocLink>)
    ensures versionDirs == [] ==> r == []
    ensures versionDirs != [] ==> (r == [] <==> forall f :: f in filesOf(versionDirs[0]) ==> !IsHtml(f))
    ensures forall k :: 0 <= k < |r| ==>
      r[k].version == versionDirs[0] && r[k].file in filesOf(versionDirs[0])
      && IsHtml(r[k].file) && r[k].title == DocTitle(r[k].file)
    ensures forall i, j :: 0 <= i < j < |r| ==> StrLe(r[i].file, r[j].file)
  {
    if versionDirs == [] then []
    else
      var files := HtmlFiles(filesOf(versionDirs[0]));
      assert files == [] ==> forall f :: f in filesOf(versionDirs[0]) ==> !IsHtml(f);
      assert files != [] ==> files[0] in filesOf(versionDirs[0]) && IsHtml(files[0]);
      LinksTo(versionDirs[0], files)
  }

  // ---------------------------------------------------------------------
  // Version list
  // ---------------------------------------------------------------------

  /**
   * The pages of each version as the loops list them. The definitions
   * below take any such function; the page uses this one.
   */
  function PagesOf(filesOf: string -> seq<string>): string -> seq<string> {
    v => HtmlFiles(filesOf(v))
  }

  datatype VersionBlock = VersionBlock(version: string, date: string, docs: seq<DocLink>)

  datatype VersionsSection = NoVersionsFound | VersionListing(blocks: seq<VersionBlock>)

  /** The block of one version: none when it has no page. */
  function BlockOf(v: string, pages: string -> seq<string>, format: string -> Option<string>): seq<VersionBlock> {
    if pages(v) == [] then [] else [VersionBlock(v, DisplayDate(v, format), LinksTo(v, pages(v)))]
  }

  /** One block per version that has pages, in the order of `versionDirs`. */
  function Blocks(versionDirs: seq<string>, pages: string -> seq<string>, format: string -> Option<string>)
    : seq<VersionBlock>
  {
    if versionDirs == [] then []
    else BlockOf(versionDirs[0], pages, format) + Blocks(versionDirs[1..], pages, format)
  }

  function VersionsSectionOf(versionDirs: seq<string>, pages: string -> seq<string>,
                             format: string -> Option<string>): VersionsSection
  {
    if versionDirs == [] then NoVersionsFound else VersionListing(Blocks(versionDirs, pages, format))
  }

  lemma {:induction false} BlocksAreVersionsWithPages(versionDirs: seq<string>, pages: string -> seq<string>,
                                                      format: string -> Option<string>)
    ensures forall b :: b in Blocks(versionDirs, pages, format) ==>
      b.version in versionDirs && pages(b.version) != []
      && b.docs == LinksTo(b.version, pages(b.version))
      && b.date == DisplayDate(b.version, format)
    ensures forall v :: v in versionDirs && pages(v) != [] ==>
      exists b :: b in Blocks(versionDirs, pages, format) && b.version == v
  {
    if versionDirs != [] {
      var v := versionDirs[0];
      var rest := versionDirs[1..];
      BlocksAreVersionsWithPages(rest, pages, format);
      assert forall u :: u in versionDirs ==> u == v || u in rest;
      if pages(v) != [] {
        assert BlockOf(v, pages, format)[0] in Blocks(versionDirs, pages, format);
      }
    }
  }

  function BlockVersions(bs: seq<VersionBlock>): (r: seq<string>)
    ensures |r| == |bs| && forall k :: 0 <= k < |bs| ==> r[k] == bs[k].version
  {
    seq(|bs|, k requires 0 <= k < |bs| => bs[k].version)
  }

  lemma BlockVersionsAppend(a: seq<VersionBlock>, b: seq<VersionBlock>)
    ensures BlockVersions(a + b) == BlockVersions(a) + BlockVersions(b)
  {
  }

  /** The blocks' versions are the listed versions with some left out. */
  lemma {:induction false} BlockVersionsSubsequence(versionDirs: seq<string>, pages: string -> seq<string>,
                                                    format: string -> Option<string>)
    ensures IsSubsequence(BlockVersions(Blocks(versionDirs, pages, format)), versionDirs)
  {
    if versionDirs != [] {
      var v, rest := versionDirs[0], versionDirs[1..];
      BlockVersionsSubsequence(rest, pages, format);
      var tail := BlockVersions(Blocks(rest, pages, format));
      var head := BlockOf(v, pages, format);
      assert Blocks(versionDirs, pages, format) == head + Blocks(rest, pages, format);
      BlockVersionsAppend(head, Blocks(rest, pages, format));
      assert versionDirs == [v] + rest;
      SubsequenceOfCons(tail, v, rest);
      if pages(v) == [] {
        assert BlockVersions(head) + tail == tail;
      } else {
        assert BlockVersions(head) == [v];
      }
    }
  }

  /**
   * The version list: the "no versions" notice exactly when there is no
   * all-digit directory; otherwise one block per version that has a page,
   * newest first, each with that version's pages in file-name order and its
   * formatted timestamp or, when the name is not a timestamp, the name.
   * Versions without a page are skipped, so the list can be empty.
   */
  lemma VersionListProperties(entries: seq<DirEntry>, filesOf: string -> seq<string>,
                              format: string -> Option<string>)
    ensures var versionDirs := VersionDirs(entries);
      var section := VersionsSectionOf(versionDirs, PagesOf(filesOf), format);
      && (section == NoVersionsFound <==> forall v :: !(DirEntry(v, true) in entries && IsDigits(v)))
      && (section.VersionListing? ==>
          && Descending(BlockVersions(section.blocks))
          && (forall b :: b in section.blocks ==>
                b.version in versionDirs && b.docs != []
                && b.docs == LinksTo(b.version, HtmlFiles(filesOf(b.version)))
                && b.date == DisplayDate(b.version, format))
          && (forall v :: v in versionDirs && (exists f :: f in filesOf(v) && IsHtml(f)) ==>
                exists b :: b in section.blocks && b.version == v))
  {
    var versionDirs := VersionDirs(entries);
    var pages := PagesOf(filesOf);
    if versionDirs != [] {
      assert DirEntry(versionDirs[0], true) in entries && IsDigits(versionDirs[0]);
      BlocksAreVersionsWithPages(versionDirs, pages, format);
      BlockVersionsSubsequence(versionDirs, pages, format);
      DescendingSubsequence(BlockVersions(Blocks(versionDirs, pages, format)), versionDirs);
      forall v | v in versionDirs && (exists f :: f in filesOf(v) && IsHtml(f))
        ensures pages(v) != []
      {
        var f :| f in filesOf(v) && IsHtml(f);
        assert f in pages(v);
      }
    }
  }

  /** One step of the version loop keeps its invariant. */
  lemma BlocksStep(versionDirs: seq<string>, i: nat, pages: string -> seq<string>, format: string -> Option<string>,
                   blocks: seq<VersionBlock>)
    requires i < |versionDirs|
    requires blocks + Blocks(versionDirs[i..], pages, format) == Blocks(versionDirs, pages, format)
    ensures var v := versionDirs[i];
      (pages(v) == [] ==> blocks + Blocks(versionDirs[i + 1..], pages, format) == Blocks(versionDirs, pages, format))
      && (pages(v) != [] ==>
            (blocks + [VersionBlock(v, DisplayDate(v, format), LinksTo(v, pages(v)))])
              + Blocks(versionDirs[i + 1..], pages, format) == Blocks(versionDirs, pages, format))
  {
    var v := versionDirs[i];
    var rest := Blocks(versionDirs[i + 1..], pages, format);
    assert versionDirs[i..][1..] == versionDirs[i + 1..];
    assert Blocks(versionDirs[i..], pages, format) == BlockOf(v, pages, format) + rest;
    if pages(v) == [] {
      assert BlockOf(v, pages, format) + rest == rest;
    } else {
      var b := VersionBlock(v, DisplayDate(v, format), LinksTo(v, pages(v)));
      assert blocks + ([b] + rest) == (blocks + [b]) + rest;
    }
  }

  /**
   * The loop that fills the version list, skipping versions without pages;
   * `pages` gives the sorted `.html` names of a version directory.
   */
  method BuildVersionList(versionDirs: seq<string>, pages: string -> seq<string>,
                          format: string -> Option<string>) returns (section: VersionsSection)
    ensures section == VersionsSectionOf(versionDirs, pages, format)
  {
    if versionDirs == [] {
      return NoVersionsFound;
    }
    var blocks: seq<VersionBlock> := [];
    for i := 0 to |versionDirs|
      invariant blocks + Blocks(versionDirs[i..], pages, format) == Blocks(versionDirs, pages, format)
    {
      var versionId := versionDirs[i];
      var docFiles := pages(versionId);
      BlocksStep(versionDirs, i, pages, format, blocks);
      if docFiles == [] {
        continue;
      }
      var formattedDate := DisplayDate(versionId, format);
      blocks := blocks + [VersionBlock(versionId, formattedDate, LinksTo(versionId, docFiles))];
    }
    assert versionDirs[|versionDirs|..] == [];
    section := VersionListing(blocks);
  }

  // ---------------------------------------------------------------------
  // Sitemap
  // ---------------------------------------------------------------------

  datatype SitemapEntry = SitemapEntry(version: string, file: string)

  datatype SitemapItem = SitemapItem(version: string, file: string, title: string, date: string)

  datatype SitemapSection = NoDocumentationFound | SitemapListing(items: seq<SitemapItem>)

  function FileKey(e: SitemapEntry): string {
    e.file
  }

  function EntriesOf(version: string, files: seq<string>): seq<SitemapEntry> {
    seq(|files|, k requires 0 <= k < |files| => SitemapEntry(version, files[k]))
  }

  /** `all_docs` before the sort: each version's pages, versions in listing order. */
  function AllDocs(versionDirs: seq<string>, pages: string -> seq<string>): seq<SitemapEntry> {
    if versionDirs == [] then []
    else EntriesOf(versionDirs[0], pages(versionDirs[0])) + AllDocs(versionDirs[1..], pages)
  }

  function ItemFor(e: SitemapEntry, format: string -> Option<string>): SitemapItem {
    SitemapItem(e.version, e.file, DocTitle(e.file), DisplayDate(e.version, format))
  }

  function Items(entries: seq<SitemapEntry>, format: string -> Option<string>): seq<SitemapItem> {
    seq(|entries|, k requires 0 <= k < |entries| => ItemFor(entries[k], format))
  }

  /** The entries in sitemap order: `all_docs.sort(key=lambda x: x['file'])`. */
  function SortedDocs(versionDirs: seq<string>, pages: string -> seq<string>): seq<SitemapEntry> {
    SortBy(AllDocs(versionDirs, pages), FileKey, false)
  }

  function SitemapOf(versionDirs: seq<string>, pages: string -> seq<string>,
                     format: string -> Option<string>): SitemapSection
  {
    if versionDirs == [] then NoDocumentationFound
    else SitemapListing(Items(SortedDocs(versionDirs, pages), format))
  }

  lemma {:induction false} AllDocsMembers(versionDirs: seq<string>, pages: string -> seq<string>)
    ensures forall e :: e in AllDocs(versionDirs, pages) <==>
      e.version in versionDirs && e.file in pages(e.version)
  {
    if versionDirs != [] {
      var v := versionDirs[0];
      AllDocsMembers(versionDirs[1..], pages);
      var here := EntriesOf(v, pages(v));
      forall e ensures e in here <==> e.version == v && e.file in pages(v) {
        if e.version == v && e.file in pages(v) {
          var k :| 0 <= k < |pages(v)| && pages(v)[k] == e.file;
          assert here[k] == e;
        }
      }
    }
  }

  /** Versions never increase along a sequence of entries. */
  predicate NewestFirst(es: seq<SitemapEntry>) {
    forall i, j :: 0 <= i < j < |es| ==> StrLe(es[j].version, es[i].version)
  }

  /** Two entries for the same file are in newest-first order. */
  predicate SameFileNewestFirst(es: seq<SitemapEntry>) {
    forall i, j :: 0 <= i < j < |es| && es[i].file == es[j].file ==> StrLe(es[j].version, es[i].version)
  }

  lemma {:induction false} AllDocsNewestFirst(versionDirs: seq<string>, pages: string -> seq<string>)
    requires Descending(versionDirs)
    ensures NewestFirst(AllDocs(versionDirs, pages))
  {
    if versionDirs != [] {
      var v := versionDirs[0];
      var rest := versionDirs[1..];
      assert Descending(rest) by {
        forall i, j | 0 <= i < j < |rest| ensures StrLe(rest[j], rest[i]) {
          assert rest[i] == versionDirs[i + 1] && rest[j] == versionDirs[j + 1];
        }
      }
      AllDocsNewestFirst(rest, pages);
      AllDocsMembers(rest, pages);
      var here := EntriesOf(v, pages(v));
      var tail := AllDocs(rest, pages);
      var all := here + tail;
      forall i, j | 0 <= i < j < |all| ensures StrLe(all[j].version, all[i].version) {
        if j < |here| {
          assert all[i] == here[i] && all[j] == here[j];
        } else if i < |here| {
          assert all[i] == here[i] && all[j] == tail[j - |here|];
          assert all[j] in tail;
          var m :| 0 <= m < |rest| && rest[m] == all[j].version;
          assert versionDirs[m + 1] == rest[m];
        } else {
          assert all[i] == tail[i - |here|] && all[j] == tail[j - |here|];
        }
      }
    }
  }

  lemma {:induction false} WithKeyNewestFirst(es: seq<SitemapEntry>, k: string)
    requires NewestFirst(es)
    ensures NewestFirst(WithKey(es, FileKey, k))
  {
    if es != [] {
      var rest := es[1..];
      assert NewestFirst(rest) by {
        forall i, j | 0 <= i < j < |rest| ensures StrLe(rest[j].version, rest[i].version) {
          assert rest[i] == es[i + 1] && rest[j] == es[j + 1];
        }
      }
      WithKeyNewestFirst(rest, k);
      WithKeyMembers(rest, FileKey, k);
      var w := WithKey(es, FileKey, k);
      var tail := WithKey(rest, FileKey, k);
      if FileKey(es[0]) == k {
        forall i, j | 0 <= i < j < |w| ensures StrLe(w[j].version, w[i].version) {
          assert w[j] == tail[j - 1];
          if i > 0 {
            assert w[i] == tail[i - 1];
          } else {
            assert w[j] in rest;
            var m :| 0 <= m < |rest| && rest[m] == w[j];
            assert es[m + 1] == w[j];
          }
        }
      } else {
        assert w == tail;
      }
    }
  }

  /** Newest-first among each file's entries gives newest-first between any two entries of one file. */
  lemma {:induction false} SameFileFromWithKey(es: seq<SitemapEntry>)
    requires forall k :: NewestFirst(WithKey(es, FileKey, k))
    ensures SameFileNewestFirst(es)
  {
    if es != [] {
      var rest := es[1..];
      forall k ensures NewestFirst(WithKey(rest, FileKey, k)) {
        NewestFirstWithKeyTail(es, k);
      }
      SameFileFromWithKey(rest);
      HeadIsNewestOfItsFile(es);
      forall i, j | 0 <= i < j < |es| && es[i].file == es[j].file
        ensures StrLe(es[j].version, es[i].version)
      {
        if i > 0 {
          assert es[i] == rest[i - 1] && es[j] == rest[j - 1];
        }
      }
    }
  }

  /** Dropping the first entry keeps each file's entries newest first. */
  lemma NewestFirstWithKeyTail(es: seq<SitemapEntry>, k: string)
    requires es != [] && NewestFirst(WithKey(es, FileKey, k))
    ensures NewestFirst(WithKey(es[1..], FileKey, k))
  {
    var w := WithKey(es, FileKey, k);
    var tail := WithKey(es[1..], FileKey, k);
    if FileKey(es[0]) == k {
      assert w == [es[0]] + tail;
      forall i, j | 0 <= i < j < |tail| ensures StrLe(tail[j].version, tail[i].version) {
        assert tail[i] == w[i + 1] && tail[j] == w[j + 1];
      }
    } else {
      assert w == tail;
    }
  }

  /** The first entry is at least as new as every later entry for its file. */
  lemma HeadIsNewestOfItsFile(es: seq<SitemapEntry>)
    requires es != [] && NewestFirst(WithKey(es, FileKey, es[0].file))
    ensures forall j :: 0 < j < |es| && es[j].file == es[0].file ==> StrLe(es[j].version, es[0].version)
  {
    var rest := es[1..];
    var k0 := es[0].file;
    var w0 := WithKey(es, FileKey, k0);
    var t0 := WithKey(rest, FileKey, k0);
    assert w0 == [es[0]] + t0;
    WithKeyMembers(rest, FileKey, k0);
    forall j | 0 < j < |es| && es[j].file == k0 ensures StrLe(es[j].version, es[0].version) {
      assert es[j] == rest[j - 1];
      assert es[j] in t0;
      var m :| 0 <= m < |t0| && t0[m] == es[j];
      assert w0[m + 1] == es[j];
    }
  }

  /**
   * The sitemap lists exactly the pairs of a version and one of its pages,
   * in file-name order; entries for the same file name keep the
   * newest-first order the versions were visited in, because the sort is
   * stable.
   */
  lemma SitemapOrder(entries: seq<DirEntry>, filesOf: string -> seq<string>)
    ensures var sorted := SortedDocs(VersionDirs(entries), PagesOf(filesOf));
      && (forall i, j :: 0 <= i < j < |sorted| ==> StrLe(sorted[i].file, sorted[j].file))
      && SameFileNewestFirst(sorted)
      && (forall e :: e in sorted <==>
            DirEntry(e.version, true) in entries && IsDigits(e.version)
            && e.file in filesOf(e.version) && IsHtml(e.file))
  {
    var versionDirs := VersionDirs(entries);
    var pages := PagesOf(filesOf);
    var all := AllDocs(versionDirs, pages);
    var sorted := SortBy(all, FileKey, false);
    assert SortedBy(sorted, FileKey, false);
    AllDocsNewestFirst(versionDirs, pages);
    forall k ensures NewestFirst(WithKey(sorted, FileKey, k)) {
      SortByStable(all, FileKey, false, k);
      WithKeyNewestFirst(all, k);
    }
    SameFileFromWithKey(sorted);
    AllDocsMembers(versionDirs, pages);
    assert forall e :: e in sorted <==> e in multiset(sorted);
    assert forall e :: e in all <==> e in multiset(all);
  }

  lemma AllDocsStep(versionDirs: seq<string>, i: nat, pages: string -> seq<string>)
    requires i < |versionDirs|
    ensures AllDocs(versionDirs[i..], pages)
      == EntriesOf(versionDirs[i], pages(versionDirs[i])) + AllDocs(versionDirs[i + 1..], pages)
  {
    assert versionDirs[i..][1..] == versionDirs[i + 1..];
  }

  /** The entries of one version, appended one page at a time. */
  method AppendVersionEntries(allDocs: seq<SitemapEntry>, versionId: string, docFiles: seq<string>)
    returns (r: seq<SitemapEntry>)
    ensures r == allDocs + EntriesOf(versionId, docFiles)
  {
    r := allDocs;
    for k := 0 to |docFiles|
      invariant r == allDocs + EntriesOf(versionId, docFiles[..k])
    {
      assert EntriesOf(versionId, docFiles[..k + 1]) == EntriesOf(versionId, docFiles[..k]) + [SitemapEntry(versionId, docFiles[k])];
      r := r + [SitemapEntry(versionId, docFiles[k])];
    }
    assert docFiles[..|docFiles|] == docFiles;
  }

  /** The loop that collects `all_docs`, version by version. */
  method CollectAllDocs(versionDirs: seq<string>, pages: string -> seq<string>)
    returns (allDocs: seq<SitemapEntry>)
    ensures allDocs == AllDocs(versionDirs, pages)
  {
    allDocs := [];
    for i := 0 to |versionDirs|
      invariant allDocs + AllDocs(versionDirs[i..], pages) == AllDocs(versionDirs, pages)
    {
      var versionId := versionDirs[i];
      var docFiles := pages(versionId);
      AllDocsStep(versionDirs, i, pages);
      ghost var entries, later := EntriesOf(versionId, docFiles), AllDocs(versionDirs[i + 1..], pages);
      assert allDocs + (entries + later) == (allDocs + entries) + later;
      allDocs := AppendVersionEntries(allDocs, versionId, docFiles);
    }
    assert versionDirs[|versionDirs|..] == [];
  }

  /** The loop that turns the sorted entries into sitemap items. */
  method ListSitemap(sorted: seq<SitemapEntry>, format: string -> Option<string>) returns (items: seq<SitemapItem>)
    ensures items == Items(sorted, format)
  {
    items := [];
    for k := 0 to |sorted|
      invariant items == Items(sorted[..k], format)
    {
      assert Items(sorted[..k + 1], format) == Items(sorted[..k], format) + [ItemFor(sorted[k], format)];
      items := items + [ItemFor(sorted[k], format)];
    }
    assert sorted[..|sorted|] == sorted;
  }

  /** The sitemap: collect the entries, sort them by file name (`list.sort`), list them. */
  method BuildSitemap(versionDirs: seq<string>, pages: string -> seq<string>,
                      format: string -> Option<string>) returns (section: SitemapSection)
    ensures section == SitemapOf(versionDirs, pages, format)
  {
    if versionDirs == [] {
      return NoDocumentationFound;
    }
    var allDocs := CollectAllDocs(versionDirs, pages);
    allDocs := SortBy(allDocs, FileKey, false);
    var items := ListSitemap(allDocs, format);
    section := SitemapListing(items);
  }

  // ---------------------------------------------------------------------
  // The whole page
  // ---------------------------------------------------------------------

  /**
   * The rebuilt parts of the page; `None` for a part whose container the
   * page lacks, which is left as it was.
   */
  datatype IndexSections = IndexSections(dropdown: Option<seq<DocLink>>, versions: Option<VersionsSection>,
                                         sitemap: Option<SitemapSection>)

  /**
   * `update_index_html`: nothing when `front/index.html` is missing;
   * otherwise each of the three parts whose container is on the page
   * (`hasNav`, `hasVersions`, `hasSitemap`) is rebuilt, all from the same
   * version list. `longDate` and `shortDate` format a version name as the
   * version list and the sitemap show it, failing when it is not a
   * timestamp.
   */
  method UpdateIndexHtml(indexExists: bool, hasNav: bool, hasVersions: bool, hasSitemap: bool,
                         entries: seq<DirEntry>, filesOf: string -> seq<string>,
                         longDate: string -> Option<string>, shortDate: string -> Option<string>)
    returns (r: Option<IndexSections>)
    ensures r.None? <==> !indexExists
    ensures r.Some? ==>
      var versionDirs := VersionDirs(entries);
      && (r.value.dropdown.Some? <==> hasNav)
      && (r.value.versions.Some? <==> hasVersions)
      && (r.value.sitemap.Some? <==> hasSitemap)
      && (hasNav ==> r.value.dropdown.value == Dropdown(versionDirs, filesOf))
      && (hasVersions ==> r.value.versions.value == VersionsSectionOf(versionDirs, PagesOf(filesOf), longDate))
      && (hasSitemap ==> r.value.sitemap.value == SitemapOf(versionDirs, PagesOf(filesOf), shortDate))
  {
    if !indexExists {
      return None;
    }
    var versionDirs := VersionDirs(entries);
    var pages := PagesOf(filesOf);
    var dropdown: Option<seq<DocLink>> := None;
    if hasNav {
      dropdown := Some(Dropdown(versionDirs, filesOf));
    }
    var versions: Option<VersionsSection> := None;
    if hasVersions {
      var section := BuildVersionList(versionDirs, pages, longDate);
      versions := Some(section);
    }
    var sitemap: Option<SitemapSection> := None;
    if hasSitemap {
      var section := BuildSitemap(versionDirs, pages, shortDate);
      sitemap := Some(section);
    }
    r := Some(IndexSections(dropdown, versions, sitemap));
  }
}
