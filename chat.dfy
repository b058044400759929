/**
 * The chatbot's answer to one question: the availability and input
 * guards, the choice of retriever, the call into retrieval and the model,
 * and the "Consulted Sources" footer appended to the answer.
 *
 * The vector store and the language model are not modelled; they appear as
 * two partial functions, `retrieve` and `generate`, whose `None` stands
 * for an exception raised inside the `try` block.
 */
module Chat {
  import opened Wrappers
  import opened Text
  import opened Seqs
  import opened GithubUrl

  const Unavailable: string := "RAG is not available. The application could not start correctly."
  const InvalidQuestion: string := "Please enter a valid question."
  const ProcessingError: string := "Sorry, an error occurred while processing your question."
  const FooterHeader: string := "\n\n--- \n*Consulted Sources:*"
  const Unknown: string := "Unknown"

  /** Number of chunks every search asks for. */
  const SearchK: nat := 5

  /** A retrieved chunk: its text and its metadata dictionary. */
  datatype RetrievedDoc = RetrievedDoc(pageContent: string, metadata: map<string, string>)

  /** `search_kwargs`: how many chunks, and an optional exact `category` filter. */
  datatype SearchRequest = SearchRequest(k: nat, categoryFilter: Option<string>)

  /** `metadata.get(key, default)`. */
  function MetaGet(doc: RetrievedDoc, key: string, default: string): (r: string)
    ensures key in doc.metadata ==> r == doc.metadata[key]
    ensures key !in doc.metadata ==> r == default
  {
    if key in doc.metadata then doc.metadata[key] else default
  }

  /**
   * The retriever's search arguments: no filter for a missing or empty
   * category or for "All", otherwise an exact filter on that category.
   */
  function SearchFor(category: Option<string>): (r: SearchRequest)
    ensures r.k == SearchK
    ensures r.categoryFilter.None? <==> category.None? || category.value == "" || category.value == "All"
    ensures r.categoryFilter.Some? ==> r.categoryFilter == category
  {
    if category.None? || category.value == "" || category.value == "All" then SearchRequest(SearchK, None)
    else SearchRequest(SearchK, category)
  }

  /** `format_docs`: the chunk texts, separated by a blank line. */
  function FormatDocs(docs: seq<RetrievedDoc>): string {
    JoinWith(seq(|docs|, k requires 0 <= k < |docs| => docs[k].pageContent), "\n\n")
  }

  /** Appending a chunk appends a blank line and its text to the context. */
  lemma FormatDocsAppend(docs: seq<RetrievedDoc>, d: RetrievedDoc)
    ensures FormatDocs(docs + [d]) == if docs == [] then d.pageContent else FormatDocs(docs) + "\n\n" + d.pageContent
  {
    var contents := seq(|docs|, k requires 0 <= k < |docs| => docs[k].pageContent);
    assert seq(|docs + [d]|, k requires 0 <= k < |docs + [d]| => (docs + [d])[k].pageContent) == contents + [d.pageContent];
    JoinWithAppend(contents, d.pageContent, "\n\n");
  }

  /** The name a chunk's source is listed under: the basename of its `source`. */
  function SourceName(doc: RetrievedDoc): string {
    LastSegment(MetaGet(doc, "source", Unknown))
  }

  /** One footer line for a chunk. */
  function SourceLine(doc: RetrievedDoc): string {
    "\n- `" + SourceName(doc) + "` (Category: `" + MetaGet(doc, "category", Unknown)
      + "`, Type: `" + MetaGet(doc, "source_type", Unknown) + "`)"
  }

  /**
   * The chunks that are listed: the first chunk of each name not in
   * `seen`. The naming function is a parameter so that reasoning about
   * the listing never has to look inside `SourceName`.
   */
  function Listed(docs: seq<RetrievedDoc>, name: RetrievedDoc -> string, seen: set<string>): seq<RetrievedDoc>
  {
    if docs == [] then []
    else if name(docs[0]) in seen then Listed(docs[1..], name, seen)
    else [docs[0]] + Listed(docs[1..], name, seen + {name(docs[0])})
  }

  function Names(docs: seq<RetrievedDoc>, name: RetrievedDoc -> string): (r: seq<string>)
    ensures |r| == |docs|
  {
    if docs == [] then [] else [name(docs[0])] + Names(docs[1..], name)
  }

  /** The footer lines of the given chunks, one after the other. */
  function Lines(docs: seq<RetrievedDoc>, line: RetrievedDoc -> string): string {
    if docs == [] then [] else line(docs[0]) + Lines(docs[1..], line)
  }

  lemma LinesAppend(docs: seq<RetrievedDoc>, d: RetrievedDoc, line: RetrievedDoc -> string)
    ensures Lines(docs + [d], line) == Lines(docs, line) + line(d)
  {
    if docs != [] {
      assert (docs + [d])[1..] == docs[1..] + [d];
      LinesAppend(docs[1..], d, line);
    } else {
      assert Lines([d], line) == line(d) + Lines([], line);
    }
  }

  /** The footer: its header, then one line per distinct source in first-seen order. */
  method BuildSourcesFooter(docs: seq<RetrievedDoc>) returns (footer: string)
    ensures footer == FooterHeader + Lines(Listed(docs, SourceName, {}), SourceLine)
  {
    footer := FooterHeader;
    var seenSources: set<string> := {};
    ghost var listed: seq<RetrievedDoc> := [];
    var i := 0;
    while i < |docs|
      invariant 0 <= i <= |docs|
      invariant listed + Listed(docs[i..], SourceName, seenSources) == Listed(docs, SourceName, {})
      invariant footer == FooterHeader + Lines(listed, SourceLine)
    {
      var doc := docs[i];
      ListedStep(docs, i, SourceName, seenSources);
      var sourceName := SourceName(doc);
      if sourceName !in seenSources {
        AppendAssoc(listed, [doc], Listed(docs[i + 1..], SourceName, seenSources + {sourceName}));
        seenSources := seenSources + {sourceName};
        LinesAppend(listed, doc, SourceLine);
        AppendAssoc(FooterHeader, Lines(listed, SourceLine), SourceLine(doc));
        footer := footer + SourceLine(doc);
        listed := listed + [doc];
      }
      i := i + 1;
    }
    assert docs[i..] == [];
    assert listed == Listed(docs, SourceName, {});
  }

  lemma ListedStep(docs: seq<RetrievedDoc>, i: nat, name: RetrievedDoc -> string, seen: set<string>)
    requires i < |docs|
    ensures Listed(docs[i..], name, seen)
         == if name(docs[i]) in seen then Listed(docs[i + 1..], name, seen)
            else [docs[i]] + Listed(docs[i + 1..], name, seen + {name(docs[i])})
  {
    assert docs[i..][1..] == docs[i + 1..];
  }

  lemma NamesCons(d: RetrievedDoc, docs: seq<RetrievedDoc>, name: RetrievedDoc -> string)
    ensures Names([d] + docs, name) == [name(d)] + Names(docs, name)
  {
    assert ([d] + docs)[1..] == docs;
  }

  lemma {:induction false} ListedNames(docs: seq<RetrievedDoc>, name: RetrievedDoc -> string, seen: set<string>)
    ensures Names(Listed(docs, name, seen), name) == Dedup(Names(docs, name), seen)
  {
    if docs != [] {
      var d, rest := docs[0], docs[1..];
      assert docs == [d] + rest;
      NamesCons(d, rest, name);
      assert ([name(d)] + Names(rest, name))[1..] == Names(rest, name);
      if name(d) in seen {
        ListedNames(rest, name, seen);
      } else {
        ListedNames(rest, name, seen + {name(d)});
        NamesCons(d, Listed(rest, name, seen + {name(d)}), name);
      }
    }
  }

  /**
   * The footer lists every source name of the retrieved chunks exactly
   * once, in the order the names first occur.
   */
  lemma FooterListsEachSourceOnce(docs: seq<RetrievedDoc>)
    ensures Names(Listed(docs, SourceName, {}), SourceName) == FirstOccurrences(Names(docs, SourceName))
    ensures Distinct(Names(Listed(docs, SourceName, {}), SourceName))
    ensures forall n :: n in Names(Listed(docs, SourceName, {}), SourceName) <==> n in Names(docs, SourceName)
  {
    ListedNames(docs, SourceName, {});
    DedupIsFirstOccurrences(Names(docs, SourceName));
    DedupDistinct(Names(docs, SourceName), {});
  }

  /** Each listed chunk is a retrieved chunk; listing never reorders. */
  lemma {:induction false} ListedSubsequence(docs: seq<RetrievedDoc>, name: RetrievedDoc -> string, seen: set<string>)
    ensures IsSubsequence(Listed(docs, name, seen), docs)
  {
    if docs != [] {
      var d, rest := docs[0], docs[1..];
      assert docs == [d] + rest;
      if name(d) in seen {
        ListedSubsequence(rest, name, seen);
        SubsequenceOfCons(Listed(rest, name, seen), d, rest);
      } else {
        ListedSubsequence(rest, name, seen + {name(d)});
        SubsequenceOfCons(Listed(rest, name, seen + {name(d)}), d, rest);
      }
    }
  }

  /**
   * The reply `chat_with_rag` returns. `available` says whether both the
   * vector store and the model were loaded at start-up.
   */
  function Reply(available: bool, question: string, category: Option<string>,
                 retrieve: (SearchRequest, string) -> Option<seq<RetrievedDoc>>,
                 generate: (string, string) -> Option<string>): string
  {
    if !available then Unavailable
    else if Strip(question) == [] then InvalidQuestion
    else
      match retrieve(SearchFor(category), question)
      case None => ProcessingError
      case Some(docs) =>
        match generate(FormatDocs(docs), question)
        case None => ProcessingError
        case Some(answer) => answer + FooterHeader + Lines(Listed(docs, SourceName, {}), SourceLine)
  }

  /** `chat_with_rag`, with the footer built by its loop. */
  method ChatWithRag(available: bool, question: string, category: Option<string>,
                     retrieve: (SearchRequest, string) -> Option<seq<RetrievedDoc>>,
                     generate: (string, string) -> Option<string>)
    returns (reply: string)
    ensures reply == Reply(available, question, category, retrieve, generate)
  {
    if !available {
      return Unavailable;
    }
    if Strip(question) == [] {
      return InvalidQuestion;
    }
    var request := SearchFor(category);
    var retrieved := retrieve(request, question);
    if retrieved.None? {
      return ProcessingError;
    }
    var docs := retrieved.value;
    var answer := generate(FormatDocs(docs), question);
    if answer.None? {
      return ProcessingError;
    }
    var footer := BuildSourcesFooter(docs);
    AppendAssoc(answer.value, FooterHeader, Lines(Listed(docs, SourceName, {}), SourceLine));
    reply := answer.value + footer;
  }

  /**
   * The guards: an unavailable store or model wins over every question,
   * even an empty one; a blank question is refused without consulting
   * retrieval or the model.
   */
  lemma ReplyGuards(question: string, category: Option<string>,
                    retrieve: (SearchRequest, string) -> Option<seq<RetrievedDoc>>,
                    generate: (string, string) -> Option<string>,
                    retrieve': (SearchRequest, string) -> Option<seq<RetrievedDoc>>,
                    generate': (string, string) -> Option<string>)
    ensures Reply(false, question, category, retrieve, generate) == Unavailable
    ensures Strip(question) == [] ==> Reply(true, question, category, retrieve, generate) == InvalidQuestion
    ensures Strip(question) == [] ==>
      Reply(true, question, category, retrieve, generate) == Reply(true, question, category, retrieve', generate')
  {
  }

  /**
   * A failure in retrieval or generation becomes the fixed apology; on
   * success the reply is the model's answer followed by the footer.
   */
  lemma ReplyOutcomes(question: string, category: Option<string>,
                      retrieve: (SearchRequest, string) -> Option<seq<RetrievedDoc>>,
                      generate: (string, string) -> Option<string>)
    requires Strip(question) != []
    ensures retrieve(SearchFor(category), question).None? ==>
      Reply(true, question, category, retrieve, generate) == ProcessingError
    ensures retrieve(SearchFor(category), question).Some? &&
            generate(FormatDocs(retrieve(SearchFor(category), question).value), question).None? ==>
      Reply(true, question, category, retrieve, generate) == ProcessingError
    ensures retrieve(SearchFor(category), question).Some? &&
            generate(FormatDocs(retrieve(SearchFor(category), question).value), question).Some? ==>
      var answer := generate(FormatDocs(retrieve(SearchFor(category), question).value), question).value;
      var r := Reply(true, question, category, retrieve, generate);
      StartsWith(r, answer) && r[|answer|..|answer| + |FooterHeader|] == FooterHeader
  {
    match retrieve(SearchFor(category), question)
    case None =>
    case Some(docs) =>
      match generate(FormatDocs(docs), question)
      case None =>
      case Some(answer) =>
        var r := answer + FooterHeader + Lines(Listed(docs, SourceName, {}), SourceLine);
        assert r[..|answer|] == answer;
        assert r[|answer|..|answer| + |FooterHeader|] == FooterHeader;
  }

  /**
   * The name `main` lists a configured file URL under
   * (`url.split('/')[-1]`): the last segment of the file's path.
   */
  lemma FileDisplayName(o: string, r: string, b: string, p: string)
    ensures LastSegment(RepoUrl(o, r, "/blob/" + (b + ("/" + p)))) == LastSegment(p)
  {
    LastSegmentNested(Host, o, r, "/blob/", b, p);
  }

  /**
   * The name `main` lists a cloned repository under
   * (`repo_url.split('/')[-1]`): the repository name, or an empty name
   * when the URL is written with a trailing '/'.
   */
  lemma RepoDisplayName(o: string, r: string)
    requires IsSegment(r)
    ensures LastSegment(RepoUrl(o, r, "")) == r
    ensures LastSegment(RepoUrl(o, r, "/")) == []
  {
    var u := RepoUrl(o, r, "");
    assert u == (Host + o) + ("/" + r);
    LastSegmentAfterSlashRight(Host + o, r);
    LastSegmentOfSegment(r);
    var v := RepoUrl(o, r, "/");
    assert v[|v| - 1] == '/';
  }
}
