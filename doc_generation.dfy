/**
 * `generate_documentation_for_category` of `generate_docs.py`: the chunks
 * retrieved for one category are cut into batches of five, each batch is
 * joined into one context and sent to the language model, the answers that
 * came back are joined into the Markdown of the page, and the rendered HTML
 * has its escaped mermaid blocks turned back into markup.
 *
 * The vector store, the language model and the file system are inputs: the
 * retrieved chunks (or `None` when the store raised), a function from a
 * batch context to the model's answer (or `None` when the call raised), and
 * whether the HTML page could be written.
 */
module DocGeneration {
  import opened Wrappers
  import opened Text
  import Seqs

  /** Chunks per model call. */
  const BatchSize: nat := 5

  /** Joins the chunks of one batch into the model's context. */
  const BatchSeparator: string := "\n\n---\n\n"

  /** Joins the model's answers into the page's Markdown. */
  const AnswerSeparator: string := "\n"

  /**
   * `category_name.replace('-', ' ').title()`: dashes become spaces; a
   * letter is upper-cased at the start or after a non-letter (a former
   * dash, a space, a digit) and lower-cased after a letter; nothing else
   * changes.
   */
  function CategoryTitle(category: string): (r: string)
    ensures |r| == |category|
    ensures forall i :: 0 <= i < |r| ==> r[i] != '-'
    ensures forall i :: 0 <= i < |r| && category[i] == '-' ==> r[i] == ' '
    ensures forall i :: 0 <= i < |r| && IsLetter(category[i]) ==>
      IsLetter(r[i]) && LowerChar(r[i]) == LowerChar(category[i])
    ensures forall i :: 0 <= i < |r| && category[i] != '-' && !IsLetter(category[i]) ==> r[i] == category[i]
    ensures forall i :: 0 <= i < |r| && IsLetter(category[i]) ==>
      r[i] == if i > 0 && IsLetter(category[i - 1]) then LowerChar(category[i]) else UpperChar(category[i])
  {
    var spaced := ReplaceChar(category, '-', ' ');
    var r := Title(spaced);
    assert forall i :: 0 <= i < |r| ==> (IsLetter(spaced[i]) || r[i] == spaced[i]);
    assert forall i :: 0 <= i < |spaced| ==> (IsLetter(spaced[i]) <==> IsLetter(category[i]));
    r
  }

  // ---------------------------------------------------------------------
  // Batching
  // ---------------------------------------------------------------------

  function Min(a: int, b: int): int {
    if a <= b then a else b
  }

  /** `[docs[i:i + 5] for i in range(0, len(docs), 5)]`. */
  function Batches<T>(docs: seq<T>): (r: seq<seq<T>>)
    ensures forall k :: 0 <= k < |r| ==> 0 < |r[k]| <= BatchSize
    decreases |docs|
  {
    if docs == [] then []
    else if |docs| <= BatchSize then [docs]
    else [docs[..BatchSize]] + Batches(docs[BatchSize..])
  }

  function Flatten<T>(parts: seq<seq<T>>): seq<T> {
    if parts == [] then [] else parts[0] + Flatten(parts[1..])
  }

  /** The batches put back together are the retrieved chunks, in order. */
  lemma {:induction false} BatchesFlatten<T>(docs: seq<T>)
    ensures Flatten(Batches(docs)) == docs
    decreases |docs|
  {
    if |docs| > BatchSize {
      BatchesFlatten(docs[BatchSize..]);
      assert docs == docs[..BatchSize] + docs[BatchSize..];
    }
  }

  /**
   * There are ceil(n / 5) batches, and batch k is the slice that
   * `range(0, len(docs), 5)` gives it: five chunks from index 5k, fewer
   * only for the last batch.
   */
  lemma {:induction false} BatchesAreSlices<T>(docs: seq<T>)
    ensures |Batches(docs)| == (|docs| + BatchSize - 1) / BatchSize
    ensures forall k :: 0 <= k < |Batches(docs)| ==>
      Batches(docs)[k] == docs[BatchSize * k .. Min(BatchSize * k + BatchSize, |docs|)]
    ensures forall k :: 0 <= k < |Batches(docs)| - 1 ==> |Batches(docs)[k]| == BatchSize
    decreases |docs|
  {
    if |docs| > BatchSize {
      var rest := docs[BatchSize..];
      BatchesAreSlices(rest);
      var r := Batches(docs);
      forall k | 0 <= k < |r|
        ensures r[k] == docs[BatchSize * k .. Min(BatchSize * k + BatchSize, |docs|)]
      {
        if k > 0 {
          assert r[k] == Batches(rest)[k - 1];
          ShiftedSlice(docs, k);
        }
      }
    }
  }

  /** Batch k - 1 of the chunks after the first five is batch k of all of them. */
  lemma ShiftedSlice<T>(docs: seq<T>, k: nat)
    requires |docs| > BatchSize && 0 < k && BatchSize * k < |docs|
    ensures docs[BatchSize..][BatchSize * (k - 1) .. Min(BatchSize * (k - 1) + BatchSize, |docs| - BatchSize)]
         == docs[BatchSize * k .. Min(BatchSize * k + BatchSize, |docs|)]
  {
    var a := BatchSize * k;
    var b := Min(a + BatchSize, |docs|);
    assert BatchSize * (k - 1) == a - BatchSize;
    assert Min(BatchSize * (k - 1) + BatchSize, |docs| - BatchSize) == b - BatchSize;
  }

  // ---------------------------------------------------------------------
  // Answers of the language model
  // ---------------------------------------------------------------------

  /** The context one batch is sent with. */
  function BatchContext(batch: seq<string>): string {
    JoinWith(batch, BatchSeparator)
  }

  /**
   * The model as the generator sees it: its answer to call number n (the
   * batch number, counted from zero) with a given context, or `None` when
   * that call raised. Keying by call number lets two calls with the same
   * context answer differently.
   */
  type Model = (nat, string) -> Option<string>

  /**
   * The answers that came back for batches numbered from n on, in batch
   * order; a batch whose call raised contributes nothing.
   */
  function Answers(batches: seq<seq<string>>, llm: Model, n: nat): (r: seq<string>)
    ensures |r| <= |batches|
  {
    if batches == [] then []
    else
      var first := llm(n, BatchContext(batches[0]));
      (if first.Some? then [first.value] else []) + Answers(batches[1..], llm, n + 1)
  }

  /** No answer at all exactly when every call raised. */
  lemma {:induction false} AnswersEmptyIff(batches: seq<seq<string>>, llm: Model, n: nat)
    ensures Answers(batches, llm, n) == [] <==>
      forall k :: 0 <= k < |batches| ==> llm(n + k, BatchContext(batches[k])).None?
  {
    if batches != [] {
      AnswersEmptyIff(batches[1..], llm, n + 1);
      assert forall k :: 1 <= k < |batches| ==> batches[k] == batches[1..][k - 1];
    }
  }

  /** When no call raised, there is one answer per batch, in batch order. */
  lemma {:induction false} AnswersAllSucceed(batches: seq<seq<string>>, llm: Model, n: nat)
    requires forall k :: 0 <= k < |batches| ==> llm(n + k, BatchContext(batches[k])).Some?
    ensures |Answers(batches, llm, n)| == |batches|
    ensures forall k :: 0 <= k < |batches| ==>
      Answers(batches, llm, n)[k] == llm(n + k, BatchContext(batches[k])).value
  {
    if batches != [] {
      var tail := batches[1..];
      forall k | 0 <= k < |tail|
        ensures llm(n + 1 + k, BatchContext(tail[k])).Some?
      {
        assert tail[k] == batches[k + 1];
      }
      AnswersAllSucceed(tail, llm, n + 1);
      var head := llm(n + 0, BatchContext(batches[0]));
      assert Answers(batches, llm, n) == [head.value] + Answers(tail, llm, n + 1);
      forall k | 0 <= k < |batches|
        ensures Answers(batches, llm, n)[k] == llm(n + k, BatchContext(batches[k])).value
      {
        if k > 0 {
          assert batches[k] == tail[k - 1];
        }
      }
    }
  }

  /** Every answer is the model's answer to one of the batches. */
  lemma {:induction false} AnswersComeFromBatches(batches: seq<seq<string>>, llm: Model, n: nat)
    ensures forall a :: a in Answers(batches, llm, n) ==>
      exists k :: 0 <= k < |batches| && llm(n + k, BatchContext(batches[k])) == Some(a)
  {
    if batches != [] {
      var tail := batches[1..];
      AnswersComeFromBatches(tail, llm, n + 1);
      var head := llm(n + 0, BatchContext(batches[0]));
      assert Answers(batches, llm, n) == (if head.Some? then [head.value] else []) + Answers(tail, llm, n + 1);
      forall a | a in Answers(batches, llm, n)
        ensures exists k :: 0 <= k < |batches| && llm(n + k, BatchContext(batches[k])) == Some(a)
      {
        if a !in Answers(tail, llm, n + 1) {
          assert head == Some(a);
        } else {
          var j :| 0 <= j < |tail| && llm(n + 1 + j, BatchContext(tail[j])) == Some(a);
          assert tail[j] == batches[j + 1];
          assert llm(n + (j + 1), BatchContext(batches[j + 1])) == Some(a);
        }
      }
    }
  }

  lemma AnswersStep(batch: seq<string>, rest: seq<seq<string>>, llm: Model, n: nat)
    ensures Answers([batch] + rest, llm, n) ==
      (if llm(n, BatchContext(batch)).Some? then [llm(n, BatchContext(batch)).value] else []) + Answers(rest, llm, n + 1)
  {
    assert ([batch] + rest)[1..] == rest;
  }

  /** The batches from index i on, for i a multiple of five. */
  lemma BatchesFrom<T>(docs: seq<T>, i: nat)
    requires i < |docs|
    ensures Batches(docs[i..]) == [docs[i .. Min(i + BatchSize, |docs|)]] + Batches(docs[Min(i + BatchSize, |docs|)..])
  {
    if |docs| - i > BatchSize {
      assert docs[i..][..BatchSize] == docs[i .. i + BatchSize];
      assert docs[i..][BatchSize..] == docs[i + BatchSize..];
    } else {
      assert docs[i .. Min(i + BatchSize, |docs|)] == docs[i..];
      assert docs[Min(i + BatchSize, |docs|)..] == [];
    }
  }

  /**
   * What the loop adds for batch number n, which starts at index i: its
   * answer, if the call returned one, and the batches after it still to
   * come.
   */
  lemma AnswersFrom(docs: seq<string>, i: nat, llm: Model, n: nat, generated: seq<string>, total: seq<string>)
    requires i < |docs|
    requires generated + Answers(Batches(docs[i..]), llm, n) == total
    ensures var end := Min(i + BatchSize, |docs|);
      var answer := llm(n, BatchContext(docs[i..end]));
      (answer.Some? ==> (generated + [answer.value]) + Answers(Batches(docs[end..]), llm, n + 1) == total)
      && (answer.None? ==> generated + Answers(Batches(docs[end..]), llm, n + 1) == total)
  {
    var end := Min(i + BatchSize, |docs|);
    var batch := docs[i..end];
    var rest := Answers(Batches(docs[end..]), llm, n + 1);
    BatchesFrom(docs, i);
    AnswersStep(batch, Batches(docs[end..]), llm, n);
    var answer := llm(n, BatchContext(batch));
    if answer.Some? {
      assert generated + ([answer.value] + rest) == (generated + [answer.value]) + rest;
    } else {
      assert [] + rest == rest;
    }
  }

  // ---------------------------------------------------------------------
  // One category
  // ---------------------------------------------------------------------

  /**
   * The loop of `generate_documentation_for_category`: one call per batch of
   * five documents, keeping the answers of the calls that returned.
   */
  method CollectAnswers(docs: seq<string>, llm: Model) returns (generated: seq<string>)
    ensures generated == Answers(Batches(docs), llm, 0)
  {
    generated := [];
    var i := 0;
    // `range(0, len(docs), 5)`: i steps by BatchSize; the last step stops at
    // |docs|; batch number i / BatchSize is the call's position.
    while i < |docs|
      invariant i <= |docs|
      invariant i % BatchSize == 0 || i == |docs|
      invariant generated + Answers(Batches(docs[i..]), llm, i / BatchSize) == Answers(Batches(docs), llm, 0)
      decreases |docs| - i
    {
      var end := Min(i + BatchSize, |docs|);
      var batch := docs[i..end];
      var n := i / BatchSize;
      AnswersFrom(docs, i, llm, n, generated, Answers(Batches(docs), llm, 0));
      var answer := llm(n, BatchContext(batch));
      if answer.Some? {
        generated := generated + [answer.value];
      }
      if end < |docs| {
        assert end / BatchSize == n + 1;
      } else {
        assert Batches(docs[end..]) == [];
      }
      i := end;
    }
    assert Batches(docs[i..]) == [];
  }

  /**
   * `generate_documentation_for_category`. `retrieved` is what the store
   * returned for the category (`None` when it raised), `llm` the model's
   * answer to each batch's call (`None` when the call raised), and
   * `pageWritten` whether the HTML file could be written. The results are
   * the file name and title the function returns, and the Markdown it
   * writes next to the page.
   */
  method GenerateDocumentationForCategory(category: string, retrieved: Option<seq<string>>,
                                          llm: Model, pageWritten: bool)
    returns (fileName: Option<string>, title: Option<string>, markdown: Option<string>)
    ensures retrieved.None? || retrieved.value == [] ==>
      fileName.None? && title.None? && markdown.None?
    ensures retrieved.Some? && retrieved.value != [] ==>
      var answers := Answers(Batches(retrieved.value), llm, 0);
      && (answers == [] ==> fileName.None? && title.None? && markdown.None?)
      && (answers != [] ==> markdown == Some(JoinWith(answers, AnswerSeparator)) && (fileName.Some? <==> pageWritten))
    ensures fileName.Some? <==> title.Some?
    ensures fileName.Some? ==> fileName.value == category + ".html" && title.value == CategoryTitle(category)
  {
    if retrieved.None? || retrieved.value == [] {
      return None, None, None;
    }
    var generated := CollectAnswers(retrieved.value, llm);
    if generated == [] {
      return None, None, None;
    }
    markdown := Some(JoinWith(generated, AnswerSeparator));
    if pageWritten {
      fileName, title := Some(category + ".html"), Some(CategoryTitle(category));
    } else {
      fileName, title := None, None;
    }
  }

  // ---------------------------------------------------------------------
  // Mermaid blocks
  // ---------------------------------------------------------------------

  const EscapedOpen: string := "&lt;pre class=\"mermaid\"&gt;"
  const EscapedClose: string := "&lt;/pre&gt;"
  const MermaidOpen: string := "<pre class=\"mermaid\">"
  const MermaidClose: string := "</pre>"

  /** The first index at or after i where p occurs in s. */
  function FindFrom(s: string, p: string, i: nat): (r: Option<nat>)
    requires i <= |s|
    ensures r.Some? ==> i <= r.value && OccursAt(s, p, r.value)
    ensures r.Some? ==> forall k: nat :: i <= k < r.value ==> !OccursAt(s, p, k)
    ensures r.None? ==> forall k: nat :: i <= k <= |s| ==> !OccursAt(s, p, k)
    decreases |s| - i
  {
    if OccursAt(s, p, i) then Some(i)
    else if i == |s| then None
    else FindFrom(s, p, i + 1)
  }

  /**
   * `re.sub(r'&lt;pre class="mermaid"&gt;(.*?)&lt;/pre&gt;',
   * r'<pre class="mermaid">\1</pre>', html, flags=re.DOTALL)`: scanning from
   * the left, an escaped opening tag followed somewhere by an escaped closing
   * tag is replaced, together with the nearest such closing tag, by the
   * real tags around the unchanged text between them; scanning resumes
   * after the closing tag.
   */
  function UnescapeMermaid(s: string): (r: string)
    decreases |s|
  {
    if s == [] then []
    else if StartsWith(s, EscapedOpen) && FindFrom(s, EscapedClose, |EscapedOpen|).Some? then
      var j := FindFrom(s, EscapedClose, |EscapedOpen|).value;
      MermaidOpen + s[|EscapedOpen|..j] + MermaidClose + UnescapeMermaid(s[j + |EscapedClose|..])
    else [s[0]] + UnescapeMermaid(s[1..])
  }

  /** Text without an escaped closing tag is left as it is. */
  lemma {:induction false} UnescapeWithoutClose(s: string)
    requires !Contains(s, EscapedClose)
    ensures UnescapeMermaid(s) == s
    decreases |s|
  {
    if s != [] {
      NotContainsTail(s, EscapedClose);
      if StartsWith(s, EscapedOpen) {
        assert FindFrom(s, EscapedClose, |EscapedOpen|).None?;
      }
      UnescapeWithoutClose(s[1..]);
    }
  }

  /** No proper suffix of the escaped closing tag is also a prefix of it. */
  lemma EscapedCloseHasNoBorder()
    ensures forall d :: 1 <= d < |EscapedClose| ==> EscapedClose[d..] != EscapedClose[..|EscapedClose| - d]
  {
    var e := EscapedClose;
    assert e == ['&', 'l', 't', ';', '/', 'p', 'r', 'e', '&', 'g', 't', ';'];
    forall d | 1 <= d < |e| ensures e[d..] != e[..|e| - d] {
      assert e[d..][0] == e[d] && e[..|e| - d][0] == '&';
      if d == 8 {
        assert e[d..][1] == 'g' && e[..|e| - d][1] == 'l';
      } else {
        assert d == 1 || d == 2 || d == 3 || d == 4 || d == 5 || d == 6 || d == 7
            || d == 9 || d == 10 || d == 11;
      }
    }
  }

  /** Two occurrences of the escaped closing tag never overlap. */
  lemma NoOverlappingClose(s: string, k: nat, c: nat)
    requires k < c < k + |EscapedClose|
    ensures !(OccursAt(s, EscapedClose, k) && OccursAt(s, EscapedClose, c))
  {
    EscapedCloseHasNoBorder();
    NoOverlapWithoutBorder(s, EscapedClose, k, c);
  }

  /** Two occurrences of p at distance d overlap only if p has a border of length |p| - d. */
  lemma NoOverlapWithoutBorder(s: string, p: string, k: nat, c: nat)
    requires k < c < k + |p|
    requires p[c - k..] != p[..|p| - (c - k)]
    ensures !(OccursAt(s, p, k) && OccursAt(s, p, c))
  {
    var d := c - k;
    if c + |p| <= |s| {
      var w := s[c..k + |p|];
      assert w == s[k..k + |p|][d..];
      assert w == s[c..c + |p|][..|p| - d];
    }
  }

  /**
   * An escaped block whose text holds no escaped closing tag becomes the
   * real block around the same text, newlines included, and the rest of
   * the page is processed on its own.
   */
  lemma UnescapeBlock(x: string, rest: string)
    requires !Contains(x, EscapedClose)
    ensures UnescapeMermaid(EscapedOpen + x + EscapedClose + rest)
         == MermaidOpen + x + MermaidClose + UnescapeMermaid(rest)
  {
    var s := EscapedOpen + x + EscapedClose + rest;
    var c := |EscapedOpen| + |x|;
    EscapedCloseHasNoBorder();
    FindAfterBlock(EscapedOpen, x, EscapedClose, rest);
    assert StartsWith(s, EscapedOpen) by { assert s[..|EscapedOpen|] == EscapedOpen; }
    assert s[|EscapedOpen|..c] == x;
    assert s[c + |EscapedClose|..] == rest;
  }

  /**
   * In o + x + p + rest, with p nowhere in x and no border of p, the first
   * p at or after |o| is the one right after x.
   */
  lemma FindAfterBlock(o: string, x: string, p: string, rest: string)
    requires !Contains(x, p)
    requires forall d :: 1 <= d < |p| ==> p[d..] != p[..|p| - d]
    ensures FindFrom(o + x + p + rest, p, |o|) == Some(|o| + |x|)
  {
    var s := o + x + p + rest;
    var c := |o| + |x|;
    assert OccursAt(s, p, c) by { assert s[c..c + |p|] == p; }
    forall k: nat | |o| <= k < c ensures !OccursAt(s, p, k) {
      if k + |p| <= c {
        assert s[k..k + |p|] == x[k - |o|..k - |o| + |p|];
        assert !OccursAt(x, p, k - |o|);
      } else {
        NoOverlapWithoutBorder(s, p, k, c);
      }
    }
    var f := FindFrom(s, p, |o|);
    assert f.Some?;
    assert !(f.value < c) && !(c < f.value);
  }

  lemma StartsWithIsOccursAtZero(w: string, p: string)
    ensures StartsWith(w, p) <==> OccursAt(w, p, 0)
  {
  }

  /** An occurrence in the tail of w is an occurrence in w one place further on. */
  lemma OccursInTail(w: string, p: string, k: nat)
    requires w != []
    ensures OccursAt(w[1..], p, k) <==> OccursAt(w, p, k + 1)
  {
    if k + |p| <= |w[1..]| {
      assert w[1..][k..k + |p|] == w[k + 1..k + 1 + |p|];
    }
  }

  /**
   * Text in front of the rest of the page is kept as it is when no escaped
   * opening tag starts inside it; the rest is processed on its own.
   */
  lemma {:induction false} UnescapeTextBefore(t: string, s: string)
    requires forall k :: 0 <= k < |t| ==> !OccursAt(t + s, EscapedOpen, k)
    ensures UnescapeMermaid(t + s) == t + UnescapeMermaid(s)
    decreases |t|
  {
    if t == [] {
      assert t + s == s;
    } else {
      var w := t + s;
      assert !OccursAt(w, EscapedOpen, 0);
      StartsWithIsOccursAtZero(w, EscapedOpen);
      assert w[0] == t[0] && w[1..] == t[1..] + s;
      forall k | 0 <= k < |t[1..]| ensures !OccursAt(t[1..] + s, EscapedOpen, k) {
        assert !OccursAt(w, EscapedOpen, k + 1);
        OccursInTail(w, EscapedOpen, k);
      }
      UnescapeTextBefore(t[1..], s);
      assert UnescapeMermaid(w) == [t[0]] + (t[1..] + UnescapeMermaid(s));
      Seqs.AppendAssoc([t[0]], t[1..], UnescapeMermaid(s));
      assert [t[0]] + t[1..] == t;
    }
  }

  /**
   * A mermaid block after ordinary text: the text is kept, the block
   * becomes the real block around the same content, and the rest of the
   * page is processed on its own.
   */
  lemma UnescapeBlockAfterText(t: string, x: string, rest: string)
    requires !Contains(x, EscapedClose)
    requires forall k :: 0 <= k < |t| ==> !OccursAt(t + (EscapedOpen + x + EscapedClose + rest), EscapedOpen, k)
    ensures UnescapeMermaid(t + (EscapedOpen + x + EscapedClose + rest))
         == t + (MermaidOpen + x + MermaidClose + UnescapeMermaid(rest))
  {
    UnescapeTextBefore(t, EscapedOpen + x + EscapedClose + rest);
    UnescapeBlock(x, rest);
  }

  /** A page with no mermaid block at all: nothing changes. */
  lemma UnescapePlainPage()
    ensures UnescapeMermaid("<p>flow</p>") == "<p>flow</p>"
  {
    UnescapeWithoutClose("<p>flow</p>");
  }
}
