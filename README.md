# Documentation RAG pipeline helpers, modelled in Dafny

This project models the deterministic parts of a documentation
retrieval-augmented-generation pipeline (`Actividad8/`). The pipeline
ingests GitHub files, directories and repositories. It indexes them in a
vector store, answers chat questions grounded in retrieved chunks, and
generates static HTML documentation pages per content category. The model
leaves out the GitHub API, the vector store, the embedding and chat models,
the chat UI and the disk. It keeps the logic around them:

- `GithubUrl` (`github_url.dfy`): `parse_github_url` classifies a URL as a
  file, tree or repository locator. The clone-directory guard of
  `clone_github_repo` and the local name of a downloaded file are here too.
- `RemoteWalk` (`remote_walk.dfy`): `download_github_directory`. A FIFO queue
  walks an abstract remote tree and hands every file to
  `download_github_file`. The walk is proved breadth-first, and complete when
  every listing succeeds.
- `DocumentLoader` (`document_loader.dfy`): `load_documents_from_path`. It
  walks top-down and prunes ignored directories. Test and mock files are
  skipped, the extension allow-list is applied, and the documents are tagged.
- `Versions` (`versions.dfy`): `load_latest_rag_version` and
  `get_latest_version_dir` pick the greatest version directory name.
- `Sidebar` (`sidebar.dfy`): `generate_sidebar_nav` turns headings into
  slugs, de-duplicates them with numeric suffixes, and builds the level-2 nav.
- `DocGeneration` (`doc_generation.dfy`): `generate_documentation_for_category`
  batches chunks by five, skips failed model calls, builds the title, and
  un-escapes mermaid blocks.
- `IndexPage` (`index_page.dfy`): `update_index_html` builds the
  latest-version dropdown, the version list and the sitemap, with its stable
  sort by file name.
- `Condense` (`condense.dfy`): `condense_markdown` and `condense_html` from
  `boost_docs.py`. They remove duplicate headings and collapse blank-line runs.
- `Chat` (`chat.dfy`): `chat_with_rag` runs the availability and input
  guards, chooses the retriever filter, builds the "Consulted Sources" footer
  and turns errors into the apology. The display names in `main` are here too.
- Helpers: `Wrappers` (Option, Result), `Text` (ASCII string functions with
  Python's meaning, and Python's string order), `Seqs` (filter, subsequence,
  first-occurrence de-duplication), `Sorting` (a stable sort by string key)
  and `Html` (a page as a sequence of heading and other nodes).

Inputs stand in for what the program reads at run time:

- A remote directory is an `Entry` tree whose listings may fail.
- A local directory is a `LocalDir` tree whose files may be unreadable.
- A directory listing is a sequence of `DirEntry` values.
- The vector store's retrieval and the language model are partial functions;
  `None` stands for an exception. The documentation generator's model is
  also given the call's batch number, so repeated calls with the same
  context may answer differently.
- Timestamp formatting is a partial function that fails as `strptime` does.

Some behaviours of the code a reader may not expect:

- `parse_github_url` reads a blob or tree path only up to the first line
  break, since its patterns have no DOTALL flag
  (`GithubUrl.ParseFileUrl`, `GithubUrl.ParseTreeUrl`).
- `parse_github_url` does not reject a blob URL without a file path
  (`.../blob/main/`). Such a URL falls back to a repository locator
  (`GithubUrl.ParseBlobWithoutPath`).
- `load_latest_rag_version` takes the greatest name among all
  subdirectories, not only timestamp-shaped ones. The digit-only filter is
  used by `get_latest_version_dir` and `update_index_html`.

## Model

| member | source | states |
|---|---|---|
| GithubUrl.OrgRepo | Actividad8/rag_builder.py:67 | The organisation and repository captured by `([^/]+)/([^/]+)` are non-empty and slash-free, and they reassemble the URL with the remaining text. |
| GithubUrl.ParseFileUrl | Actividad8/rag_builder.py:56-59 | `https://github.com/O/R/blob/B/P` with O, R and B non-empty and slash-free, and P non-empty with no line break, parses to a file locator with exactly O, R, B and P. The pattern's `.` does not match a line break, so anything from a line break after P on is ignored. |
| GithubUrl.ParseTreeUrl | Actividad8/rag_builder.py:61-64 | A tree URL gives a tree locator whose path is the text after `tree/B/` up to the first line break, or `.` when that text is empty (`.../tree/B` and `.../tree/B/`). |
| GithubUrl.ParseBlobWithoutPath | Actividad8/rag_builder.py:56-69 | `.../blob/B` and `.../blob/B/` match neither the blob nor the tree pattern and become a repository locator with only the organisation and repository. |
| GithubUrl.ParsedOrgRepo | Actividad8/rag_builder.py:54-71 | Every locator the parser returns carries the organisation and repository named right after the host. |
| GithubUrl.ParseNoneIff | Actividad8/rag_builder.py:54-71 | The parser returns `None` exactly when the URL does not start with the host, a non-empty organisation, '/', and a non-empty repository. |
| GithubUrl.CloneDir | Actividad8/rag_builder.py:114-120 | A clone directory exists exactly for URLs that parse to a repository locator. |
| GithubUrl.CloneGithubRepo | Actividad8/rag_builder.py:112-137 | Non-repository URLs give no path. An existing non-empty clone is reused. Otherwise the path is returned exactly when the clone succeeds. |
| GithubUrl.FileUrlIsNotCloned | Actividad8/rag_builder.py:114-117 | A blob URL with a path is never cloned. |
| GithubUrl.LocalFileName | Actividad8/rag_builder.py:80 | The local name is the repository name, '_', then the path with each '/' turned into '_', so its length is len(repo)+1+len(path). |
| GithubUrl.LocalFileNameIsFlat | Actividad8/rag_builder.py:80 | The local name contains no '/' when the repository name contains none. |
| GithubUrl.LocalFileNameInjective | Actividad8/rag_builder.py:80 | Paths without '_' that get the same local name are equal. |
| GithubUrl.LocalFileNameCollision | Actividad8/rag_builder.py:80 | `a/b` and `a_b` get the same local name, so one download overwrites the other. |
| RemoteWalk.BfsSplit | Actividad8/rag_builder.py:101-107 | Walking a queue first hands over the files of its front level, then walks the rest followed by the next level. A failing listing cuts the walk short after a prefix of those files. |
| RemoteWalk.BfsIsLevelOrder | Actividad8/rag_builder.py:101-107 | The pop-front/extend-back loop hands files over in breadth-first level order. It is cut short exactly when some reachable listing fails, and even then what it handed over is a prefix of that order. |
| RemoteWalk.LevelOrderIsAllFiles | Actividad8/rag_builder.py:101-107 | Level order contains every file of the tree exactly as often as the tree does. |
| RemoteWalk.BfsReachesEveryFile | Actividad8/rag_builder.py:101-107 | When every listing succeeds, every file reachable from the start directory is handed to the single-file download exactly once, and no directory is. |
| RemoteWalk.DownloadGithubFile | Actividad8/rag_builder.py:73-92 | A download returns exactly `LocalFilePath(repo, path)` (under the download directory) when the file can be fetched, and nothing otherwise. That path is flat when the repository name is. |
| RemoteWalk.FetchedOnlyFetchable | Actividad8/rag_builder.py:103-107 | There are no more downloads than files handed over, and every downloaded path is the local copy of a fetchable file the walk handed over. |
| RemoteWalk.DownloadGithubDirectory | Actividad8/rag_builder.py:94-110 | The loop returns the downloads of the files the breadth-first walk hands over. On a failing listing it returns the downloads made so far, and `[]` when the start cannot be listed. |
| RemoteWalk.DirectoryDownloadsAreLevelOrder | Actividad8/rag_builder.py:94-110 | The downloads are those of a prefix of the tree's level order, and of all of it when every listing succeeds. |
| DocumentLoader.Pruned | Actividad8/rag_builder.py:149 | The kept subdirectories are among the original ones and none has an ignored lower-cased name. |
| DocumentLoader.VisitPrunes | Actividad8/rag_builder.py:147-149 | The pruned walk is exactly the unpruned walk restricted to files under no ignored directory, in the same order. |
| DocumentLoader.WalkStaysOutOfIgnored | Actividad8/rag_builder.py:145-149 | No file beneath an ignored directory is met, and every file beneath no ignored directory is. |
| DocumentLoader.LoadAll | Actividad8/rag_builder.py:160-166 | Every loaded document carries the given category and source type. |
| DocumentLoader.LoadAllIff | Actividad8/rag_builder.py:151-168 | A document is produced exactly for a met file that passes the name and extension filter and can be read. Unreadable files are skipped without stopping the others. |
| DocumentLoader.LoadedFromTree | Actividad8/rag_builder.py:139-169 | Loading a tree yields exactly the readable, filter-passing files that lie under no ignored directory. |
| DocumentLoader.LoadFiles | Actividad8/rag_builder.py:151-168 | The per-directory loop loads the directory's files as the filter and load rule say, in listing order. |
| DocumentLoader.LoadDocumentsFromPath | Actividad8/rag_builder.py:139-169 | The walk with in-place pruning returns the documents of the pruned top-down walk, using the default allow-list when none is given. |
| DocumentLoader.TestAndMockFilesSkipped | Actividad8/rag_builder.py:152-156 | `foo_test.py`, `test_bar.go` and `Mock_Client.go` are skipped whatever the allow-list. |
| DocumentLoader.ExtensionCaseSensitive | Actividad8/rag_builder.py:158 | The extension check is case-sensitive: `README.md` is loaded and `README.MD` is not. |
| DocumentLoader.RepositoryLoadsOnlyGo | Actividad8/rag_builder.py:243 | With the cloned-repository allow-list, only `.go` files are loaded. |
| Versions.DirNames | Actividad8/rag_builder.py:287 | The version candidates are exactly the names of the directory entries that are directories. |
| Versions.DigitDirNames | Actividad8/boost_docs.py:11 | The candidates are exactly the directory entries with an all-digit name. |
| Versions.LoadLatestRagVersion | Actividad8/rag_builder.py:277-292 | It checks the API key, then the parent directory, then for subdirectories (raising when none), and picks the greatest subdirectory name and its path. |
| Versions.GetLatestVersionDir | Actividad8/boost_docs.py:10-15 | `None` exactly when no all-digit subdirectory exists, otherwise the path of the greatest all-digit name. |
| Versions.DigitsOrderIsNumeric | Actividad8/rag_builder.py:291 | For digit strings of equal length, such as the 14-digit timestamps, string order is numeric order, so the greatest name is the latest timestamp. |
| Sorting.SortBy | Actividad8/generate_docs.py:318 | Sorting by a string key returns a permutation ordered by that key. |
| Sorting.SortByStable | Actividad8/generate_docs.py:318 | The sort is stable: elements with equal keys keep their input order. |
| Sorting.FirstOfDescendingIsGreatest | Actividad8/rag_builder.py:291 | The first name of the descending sort is one of the names and no name is greater. |
| Text.StripEmptyIff | Actividad8/chatbot_app.py:30 | A question strips to nothing exactly when it is all whitespace. |
| Text.LastSegmentIsBasename | Actividad8/chatbot_app.py:84 | The basename has no '/', is a suffix of the path, and is preceded by '/' when shorter than the path. |
| Text.NatToStringLength | Actividad8/generate_docs.py:34 | A counter of at least 10^k has more than k digits, which bounds the slug suffix search. |
| Text.TitleFrom | Actividad8/generate_docs.py:75 | `str.title()`: length and non-letters are kept; a letter is upper-cased when the character before it (or, at the start, the state passed in) is not a letter, and lower-cased when it is. |
| Sidebar.DashWhitespace | Actividad8/generate_docs.py:28 | Replacing whitespace runs with '-' leaves no whitespace and does not lengthen the text. |
| Sidebar.DashWhitespaceRun | Actividad8/generate_docs.py:28 | A whitespace run on its own becomes exactly one '-'. |
| Sidebar.DashWhitespaceSplits | Actividad8/generate_docs.py:28 | A character that is not whitespace is kept, and the text on each side of it is rewritten on its own. With DashWhitespaceRun this fixes the whole `re.sub`. |
| Sidebar.DashWhitespaceNoSpace | Actividad8/generate_docs.py:28 | Text without whitespace is left unchanged. |
| Sidebar.SlugBase | Actividad8/generate_docs.py:27-29 | The slug base uses only `[a-z0-9-]`. |
| Sidebar.SlugBaseRun | Actividad8/generate_docs.py:27-29 | A whitespace run on its own gives the base `-`. |
| Sidebar.SlugBaseSplits | Actividad8/generate_docs.py:27-29 | A character that is not whitespace contributes its lower-case form when that is in `[a-z0-9-]` and nothing otherwise. Each side of it gives its own base. |
| Sidebar.SlugBaseInnerRun | Actividad8/generate_docs.py:27-29 | A whitespace run between two other characters becomes exactly one '-' in the base, with both sides giving their own bases. |
| Sidebar.SlugBaseOfWord | Actividad8/generate_docs.py:27-29 | A word of letters, digits and '-' gives itself, lower-cased. |
| Sidebar.WordsBase | Actividad8/generate_docs.py:27-29 | Two such words separated by whitespace and followed by a character outside the slug alphabet give `word1-word2`, lower-cased. |
| Sidebar.OverviewBase | Actividad8/generate_docs.py:27-29 | The heading "Overview" has base `overview`. |
| Sidebar.GettingStartedBase | Actividad8/generate_docs.py:27-29 | The heading "Getting Started!" has base `getting-started`. |
| Sidebar.SuffixedIsSlug | Actividad8/generate_docs.py:34 | `base-n` of a slug base uses only slug characters. |
| Sidebar.ChooseSlug | Actividad8/generate_docs.py:31-35 | The suffix loop terminates. It returns an unused id: the base when unused, else `base-n` for the smallest n >= 1 not in use. |
| Sidebar.ChosenIdIsSlug | Actividad8/generate_docs.py:28-35 | Every assigned id, suffixed or not, uses only `[a-z0-9-]`. |
| Sidebar.SecondHeading | Actividad8/generate_docs.py:31-35 | A heading whose base is already used gets `base-1` when that is free. |
| Sidebar.SecondOverview | Actividad8/generate_docs.py:27-35 | A second "Overview" heading gets `overview-1`, going from the heading text through its base `overview`. |
| Sidebar.ChosenIdsDistinct | Actividad8/generate_docs.py:24-38 | All ids assigned within one page are pairwise distinct slugs. |
| Sidebar.NavBodyIsLevel2Items | Actividad8/generate_docs.py:46-50 | The nav loop emits one item per level-2 record, in record order, and none for level-3 records. |
| Sidebar.AssignIds | Actividad8/generate_docs.py:23-44 | One record per h2/h3 heading, in document order, with stripped text, level and chosen id. The page is unchanged except that those headings carry the ids. |
| Sidebar.BuildNav | Actividad8/generate_docs.py:46-50 | The nav HTML is the opening tag, the level-2 items and the closing tag. |
| Sidebar.GenerateSidebarNav | Actividad8/generate_docs.py:18-52 | It returns the records, the page with ids written, and a nav that links to exactly the level-2 records in order. The ids are pairwise-distinct slugs. |
| DocGeneration.CategoryTitle | Actividad8/generate_docs.py:75 | The title has the category's length and no '-'. Dashes become spaces; a letter at the start or after a non-letter is upper case, every other letter lower case; other characters are unchanged. |
| DocGeneration.Batches | Actividad8/generate_docs.py:68-72 | Every batch holds between one and five chunks. |
| DocGeneration.BatchesFlatten | Actividad8/generate_docs.py:68-72 | The batches concatenate back to the retrieved chunks. |
| DocGeneration.BatchesAreSlices | Actividad8/generate_docs.py:71-72 | There are ceil(n/5) batches. Batch k is the slice from 5k of length five, except possibly the last. |
| DocGeneration.AnswersEmptyIff | Actividad8/generate_docs.py:105-119 | No content is generated exactly when every batch's model call fails. |
| DocGeneration.AnswersAllSucceed | Actividad8/generate_docs.py:105-112 | When no call fails, there is one answer per batch, in batch order, and answer k is the k-th call's reply to batch k's context. |
| DocGeneration.AnswersComeFromBatches | Actividad8/generate_docs.py:103-112 | Every answer is the reply of call k to the joined context of batch k, for some k. |
| DocGeneration.CollectAnswers | Actividad8/generate_docs.py:68-115 | The loop over batches of five makes one call per batch, numbered in order, and keeps exactly the replies of the calls that did not raise, in order. |
| DocGeneration.GenerateDocumentationForCategory | Actividad8/generate_docs.py:54-121 | No or failed retrieval, or all calls failing, gives `(None, None)` and no Markdown. Otherwise the Markdown is the successful answers joined by newlines, and the page name and title come back when the page is written. |
| DocGeneration.FindFrom | Actividad8/generate_docs.py:135 | It finds the leftmost occurrence of the escaped closing tag at or after a position, which makes `(.*?)` shortest. |
| DocGeneration.UnescapeWithoutClose | Actividad8/generate_docs.py:134-139 | Text without an escaped closing tag is left unchanged. |
| DocGeneration.UnescapeBlock | Actividad8/generate_docs.py:134-139 | An escaped mermaid block becomes a real `<pre class="mermaid">` block around the same text, newlines included. The rest of the page is processed independently. |
| DocGeneration.UnescapeTextBefore | Actividad8/generate_docs.py:134-139 | Text in front of the rest of the page, with no escaped opening tag starting inside it, is kept as it is; the rest is processed on its own. |
| DocGeneration.UnescapeBlockAfterText | Actividad8/generate_docs.py:134-139 | Ordinary text followed by an escaped block: the text is kept, the block becomes the real block around the same content, and the rest of the page is processed on its own. |
| DocGeneration.UnescapePlainPage | Actividad8/generate_docs.py:134-139 | The plain page `<p>flow</p>` is unchanged. |
| IndexPage.VersionDirs | Actividad8/generate_docs.py:239-242 | The versions are exactly the all-digit subdirectory names, sorted descending. |
| IndexPage.HtmlFiles | Actividad8/generate_docs.py:253 | A version's pages are exactly its `.html` names, sorted ascending. |
| IndexPage.DocTitleOfPage | Actividad8/generate_docs.py:265 | A generated page `<category>.html` is listed under the same title as the page's own heading, when the category name does not itself contain `.html`. `.replace('.html', '')` removes every occurrence, not only the suffix. |
| IndexPage.Dropdown | Actividad8/generate_docs.py:250-268 | The dropdown lists only the latest version's pages in name order. It is empty when that version has none; older versions are never used. |
| IndexPage.BlocksAreVersionsWithPages | Actividad8/generate_docs.py:280-301 | There is one block per version that has pages, and each block carries that version's pages and displayed date. |
| IndexPage.VersionListProperties | Actividad8/generate_docs.py:272-302 | The notice appears exactly when there is no version. Otherwise the blocks are newest first, versions without pages are skipped, and a failed timestamp parse shows the name verbatim. |
| IndexPage.BuildVersionList | Actividad8/generate_docs.py:276-302 | The loop builds the version-list section as specified. |
| IndexPage.AllDocsMembers | Actividad8/generate_docs.py:311-316 | The collected entries are exactly the pairs of a version and one of its pages. |
| IndexPage.AllDocsNewestFirst | Actividad8/generate_docs.py:311-316 | Before the sort, the entries are in newest-version-first order. |
| IndexPage.SitemapOrder | Actividad8/generate_docs.py:311-318 | The sitemap lists exactly every (version, page) pair, by file name ascending. Entries with the same file name stay newest first because the sort is stable. |
| IndexPage.AppendVersionEntries | Actividad8/generate_docs.py:315-316 | Appending one version's pages adds one entry per page, in order. |
| IndexPage.CollectAllDocs | Actividad8/generate_docs.py:311-316 | The collecting loop builds the entries of every version in version order. |
| IndexPage.ListSitemap | Actividad8/generate_docs.py:320-332 | One item per sorted entry, with its title and its date or verbatim version name. |
| IndexPage.BuildSitemap | Actividad8/generate_docs.py:305-332 | The notice appears when there is no version; otherwise the sorted items. |
| IndexPage.UpdateIndexHtml | Actividad8/generate_docs.py:219-335 | Nothing happens when the index is missing. Otherwise each of the dropdown, version list and sitemap is rebuilt exactly when its container is on the page, all from one descending version list; a part without a container is left alone. |
| Condense.SplitLinesNoBreak | Actividad8/boost_docs.py:19 | No split line contains a line break, and only the empty text has no lines. |
| Condense.SplitLinesJoin | Actividad8/boost_docs.py:19 | Joining the lines with '\n' gives the text back when it does not end in a line break. |
| Condense.CondenseMarkdown | Actividad8/boost_docs.py:17-29 | The loop keeps the lines the seen-set rule keeps, then joins them and collapses runs of line breaks. |
| Condense.KeptBodyLines | Actividad8/boost_docs.py:22-26 | Every non-heading line is kept, in order. |
| Condense.KeptHeadings | Actividad8/boost_docs.py:20-26 | Kept heading texts are the input heading texts de-duplicated in first-occurrence order. They are pairwise distinct, and every input heading text survives. |
| Condense.KeptSubsequence | Actividad8/boost_docs.py:19-26 | The kept lines are a subsequence of the input lines. |
| Condense.CollapseShape | Actividad8/boost_docs.py:28 | The collapsed text has no three consecutive '\n', and a leading run of 3+ becomes exactly two. |
| Condense.CollapseRun | Actividad8/boost_docs.py:28 | A run of k line breaks on its own becomes exactly two breaks when k >= 3 and stays k breaks otherwise. |
| Condense.CollapseSplitsAtText | Actividad8/boost_docs.py:28 | Every character other than a line break is kept, and the text on each side of it is collapsed independently. |
| Condense.CollapseInnerRun | Actividad8/boost_docs.py:28 | A maximal run of k breaks between two other characters becomes exactly `\n\n` when k >= 3 and is kept as it is when k is 1 or 2; the surrounding text is collapsed on its own. |
| Condense.CollapseIdempotent | Actividad8/boost_docs.py:28 | Collapsing twice is collapsing once. |
| Condense.CondenseHtml | Actividad8/boost_docs.py:31-42 | The loop removes each h2/h3 whose text was already seen on an earlier h2/h3 and keeps every other node. |
| Condense.CondensedPage | Actividad8/boost_docs.py:34-40 | Nodes other than h2/h3 are unchanged and in order. h2 and h3 share one seen-set, so the surviving heading texts are distinct first occurrences and every text survives. |
| Condense.CondensedSubsequence | Actividad8/boost_docs.py:34-40 | The condensed page is a subsequence of the input nodes. |
| Chat.MetaGet | Actividad8/chatbot_app.py:84-88 | A metadata lookup gives the stored value, or the default when the key is missing. |
| Chat.SearchFor | Actividad8/chatbot_app.py:34-38 | k is always 5. There is no filter exactly for a missing or empty category or "All"; otherwise the filter is that exact category. |
| Chat.FormatDocsAppend | Actividad8/chatbot_app.py:63-64 | The context is the chunk texts separated by a blank line. |
| Chat.BuildSourcesFooter | Actividad8/chatbot_app.py:81-88 | The footer is its header followed by one line for each chunk that is the first with its source name. |
| Chat.ListedNames | Actividad8/chatbot_app.py:83-88 | The listed names are the retrieved names de-duplicated against the seen set, in order. |
| Chat.FooterListsEachSourceOnce | Actividad8/chatbot_app.py:81-88 | Each distinct source basename is listed exactly once, in first-seen order. |
| Chat.ListedSubsequence | Actividad8/chatbot_app.py:83-88 | The listed chunks are retrieved chunks, in retrieval order. |
| Chat.ChatWithRag | Actividad8/chatbot_app.py:24-94 | The reply is the guard message, the apology, or the answer followed by the footer, as the guards and the try block decide. |
| Chat.ReplyGuards | Actividad8/chatbot_app.py:28-31 | Unavailability wins over every question, even a blank one. A blank question gets the validation message whatever retrieval and the model would do. |
| Chat.ReplyOutcomes | Actividad8/chatbot_app.py:77-94 | A retrieval or generation failure gives the apology. On success the reply starts with the answer, followed immediately by the footer header. |
| Chat.FileDisplayName | Actividad8/chatbot_app.py:125 | A file URL is listed by the last segment of its path. |
| Chat.RepoDisplayName | Actividad8/chatbot_app.py:142 | A repository URL is listed by the repository name, or by an empty name when written with a trailing '/'. |

## Left out

- GitHub API calls, `git clone` through a subprocess, and the check for an existing clone on disk. Listings, fetchability and clone outcomes are inputs.
- Embeddings, the Chroma vector store, the text splitter, prompt templates and LLM chains, and the Gradio UI. Retrieval and generation are partial functions over opaque values.
- File reads and writes, `os.walk` and `os.listdir` on a real disk, `glob`, and the `.env` and API-key loading, which is reduced to one boolean in `Versions.LoadLatestRagVersion`. Also `datetime.now()`.
- `create_new_rag_version` and the `main` functions: the loops over configured sources, PDF loading and the error panel. They only call the modelled helpers and foreign code.
- `process_files_in_dir` of `boost_docs.py`: it reads and writes files around `condense_markdown` and `condense_html`.
- BeautifulSoup parsing and serialisation, `prettify`, the Markdown renderer, the page templates, and the Bootstrap link `update_index_html` inserts into the head. HTML is a sequence of heading and other nodes, and the markup around links is not modelled.
- `strptime`/`strftime` are a partial formatting function.
- `lower`, `strip`, `isdigit`, `title` and `\s` are modelled on ASCII, with Python's ASCII whitespace set.
- `splitlines` is modelled on '\n' only.
- `get_text(strip=True)` is modelled as stripping the heading's text as a whole. BeautifulSoup strips each text fragment inside a heading separately.
- `chat_with_rag`'s `history` argument is unused by the source and not modelled. The module-global store and model handles become one `available` flag.
- Logging.
