/**
 * The "boost" pass over generated documentation: repeated section headings
 * are removed from the Markdown and from the HTML pages of the latest
 * version, and long runs of blank lines are collapsed.
 */
module Condense {
  import opened Text
  import opened Seqs
  import opened Html

  // ---------------------------------------------------------------------
  // Lines
  // ---------------------------------------------------------------------

  /** Index of the first '\n' in s, or |s| when there is none. */
  function LineEnd(s: string): (r: nat)
    ensures r <= |s|
    ensures forall k :: 0 <= k < r ==> s[k] != '\n'
    ensures r < |s| ==> s[r] == '\n'
  {
    if s == [] || s[0] == '\n' then 0 else 1 + LineEnd(s[1..])
  }

  /**
   * `s.splitlines()` for text whose only line break is '\n': a final
   * line break does not open an empty last line.
   */
  function SplitLines(s: string): (lines: seq<string>)
    decreases |s|
  {
    if s == [] then []
    else
      var e := LineEnd(s);
      if e == |s| then [s] else [s[..e]] + SplitLines(s[e + 1..])
  }

  /** No line holds a line break, and only the empty text has no lines. */
  lemma {:induction false} SplitLinesNoBreak(s: string)
    ensures SplitLines(s) == [] <==> s == []
    ensures forall k, c :: 0 <= k < |SplitLines(s)| && 0 <= c < |SplitLines(s)[k]| ==> SplitLines(s)[k][c] != '\n'
    decreases |s|
  {
    if s != [] {
      var e := LineEnd(s);
      var first := s[..e];
      assert forall c :: 0 <= c < |first| ==> first[c] != '\n';
      if e < |s| {
        SplitLinesNoBreak(s[e + 1..]);
        var tail := SplitLines(s[e + 1..]);
        var lines := SplitLines(s);
        assert lines == [first] + tail;
        forall k, c | 0 <= k < |lines| && 0 <= c < |lines[k]|
          ensures lines[k][c] != '\n'
        {
          if k == 0 {
            assert lines[k] == first;
          } else {
            assert lines[k] == tail[k - 1];
          }
        }
      } else {
        assert first == s;
      }
    }
  }

  /** Joining the lines back with '\n' gives the text, unless it ended in a line break. */
  lemma {:induction false} SplitLinesJoin(s: string)
    requires s == [] || s[|s| - 1] != '\n'
    ensures JoinWith(SplitLines(s), "\n") == s
    decreases |s|
  {
    if s != [] {
      var e := LineEnd(s);
      if e == |s| {
        assert SplitLines(s) == [s];
      } else {
        var line, rest := s[..e], s[e + 1..];
        assert s == line + "\n" + rest;
        assert rest != [] && rest[|rest| - 1] == s[|s| - 1];
        var tail := SplitLines(rest);
        assert SplitLines(s) == [line] + tail;
        SplitLinesNoBreak(rest);
        SplitLinesJoin(rest);
        JoinWithCons(line, tail, "\n");
      }
    }
  }

  lemma JoinWithCons(x: string, parts: seq<string>, sep: string)
    requires parts != []
    ensures JoinWith([x] + parts, sep) == x + sep + JoinWith(parts, sep)
  {
    assert ([x] + parts)[1..] == parts;
  }

  // ---------------------------------------------------------------------
  // condense_markdown
  // ---------------------------------------------------------------------

  /** A Markdown heading line: its stripped text starts with '#'. */
  predicate IsHeadingLine(line: string) {
    StartsWith(Strip(line), "#")
  }

  predicate IsBodyLine(line: string) {
    !IsHeadingLine(line)
  }

  /**
   * The lines the loop keeps, given the stripped texts of the lines kept
   * so before: a heading whose stripped text was already seen is dropped;
   * every kept line, heading or not, adds its stripped text to `seen`.
   */
  function Kept(lines: seq<string>, seen: set<string>): seq<string>
  {
    if lines == [] then []
    else
      var t := Strip(lines[0]);
      if t in seen && StartsWith(t, "#") then Kept(lines[1..], seen)
      else [lines[0]] + Kept(lines[1..], seen + {t})
  }

  /** `re.sub(r'\n{3,}', '\n\n', s)`: every run of three or more line breaks becomes two. */
  function CollapseNewlines(s: string): (r: string)
    ensures |r| <= |s|
    decreases |s|
  {
    if s == [] then []
    else
      var n := Lead(s);
      if n >= 3 then "\n\n" + CollapseNewlines(s[n..])
      else [s[0]] + CollapseNewlines(s[1..])
  }

  /** The number of line breaks s starts with. */
  function Lead(s: string): (n: nat)
    ensures n <= |s|
    ensures forall k :: 0 <= k < n ==> s[k] == '\n'
    ensures n < |s| ==> s[n] != '\n'
  {
    if s == [] || s[0] != '\n' then 0 else 1 + Lead(s[1..])
  }

  /** No three line breaks in a row. */
  predicate NoTripleBreak(s: string) {
    forall i :: 0 <= i && i + 2 < |s| ==> !(s[i] == '\n' && s[i + 1] == '\n' && s[i + 2] == '\n')
  }

  /** `condense_markdown`: the loop of the source, with `seen` and `new_lines`. */
  method CondenseMarkdown(md: string) returns (condensed: string)
    ensures condensed == CollapseNewlines(JoinWith(Kept(SplitLines(md), {}), "\n"))
  {
    var lines := SplitLines(md);
    var seen: set<string> := {};
    var newLines: seq<string> := [];
    var i := 0;
    while i < |lines|
      invariant 0 <= i <= |lines|
      invariant newLines + Kept(lines[i..], seen) == Kept(lines, {})
    {
      assert lines[i..][1..] == lines[i + 1..];
      var t := Strip(lines[i]);
      if t in seen && StartsWith(t, "#") {
        i := i + 1;
        continue;
      }
      seen := seen + {t};
      newLines := newLines + [lines[i]];
      i := i + 1;
    }
    assert lines[i..] == [];
    assert newLines == Kept(lines, {});
    condensed := CollapseNewlines(JoinWith(newLines, "\n"));
  }

  /** Stripped texts, element by element. */
  function Stripped(lines: seq<string>): (r: seq<string>)
    ensures |r| == |lines|
  {
    if lines == [] then [] else [Strip(lines[0])] + Stripped(lines[1..])
  }

  /** The heading texts among the stripped texts already seen. */
  function HeadingTexts(seen: set<string>): set<string> {
    set t | t in seen && StartsWith(t, "#")
  }

  lemma FilterCons<T>(x: T, s: seq<T>, p: T -> bool)
    ensures Filter([x] + s, p) == (if p(x) then [x] else []) + Filter(s, p)
  {
    assert ([x] + s)[1..] == s;
  }

  lemma StrippedCons(x: string, s: seq<string>)
    ensures Stripped([x] + s) == [Strip(x)] + Stripped(s)
  {
    assert ([x] + s)[1..] == s;
  }

  /** Only headings are ever dropped: the body lines come out exactly as they went in. */
  lemma {:induction false} KeptBodyLines(lines: seq<string>, seen: set<string>)
    ensures Filter(Kept(lines, seen), IsBodyLine) == Filter(lines, IsBodyLine)
  {
    if lines != [] {
      var t := Strip(lines[0]);
      var body := Filter(lines[1..], IsBodyLine);
      assert Filter(lines, IsBodyLine) == (if IsBodyLine(lines[0]) then [lines[0]] else []) + body;
      if t in seen && StartsWith(t, "#") {
        assert Kept(lines, seen) == Kept(lines[1..], seen);
        KeptBodyLines(lines[1..], seen);
        assert !IsBodyLine(lines[0]);
        assert Filter(lines, IsBodyLine) == [] + body == body;
      } else {
        var rest := Kept(lines[1..], seen + {t});
        assert Kept(lines, seen) == [lines[0]] + rest;
        KeptBodyLines(lines[1..], seen + {t});
        FilterCons(lines[0], rest, IsBodyLine);
        assert Filter([lines[0]] + rest, IsBodyLine) == (if IsBodyLine(lines[0]) then [lines[0]] else []) + body;
      }
    }
  }

  /**
   * The headings that survive are the first occurrence of each heading
   * text: their stripped texts are those of the input headings,
   * de-duplicated in order.
   */
  lemma {:induction false} KeptHeadingsGeneral(lines: seq<string>, seen: set<string>)
    ensures Stripped(Filter(Kept(lines, seen), IsHeadingLine))
         == Dedup(Stripped(Filter(lines, IsHeadingLine)), HeadingTexts(seen))
  {
    if lines != [] {
      var x, rest := lines[0], lines[1..];
      assert lines == [x] + rest;
      var t := Strip(x);
      assert IsHeadingLine(x) == StartsWith(t, "#");
      var hs := Stripped(Filter(rest, IsHeadingLine));
      StrippedHeadingsCons(x, rest);
      if t in seen && StartsWith(t, "#") {
        assert Kept(lines, seen) == Kept(rest, seen);
        KeptHeadingsGeneral(rest, seen);
        assert t in HeadingTexts(seen);
        DedupCons(t, hs, HeadingTexts(seen));
        assert Dedup([t] + hs, HeadingTexts(seen)) == Dedup(hs, HeadingTexts(seen));
      } else {
        var seen' := seen + {t};
        assert Kept(lines, seen) == [x] + Kept(rest, seen');
        KeptHeadingsGeneral(rest, seen');
        var ks := Stripped(Filter(Kept(rest, seen'), IsHeadingLine));
        assert ks == Dedup(hs, HeadingTexts(seen'));
        StrippedHeadingsCons(x, Kept(rest, seen'));
        HeadingTextsAdd(seen, t);
        if StartsWith(t, "#") {
          assert t !in HeadingTexts(seen);
          DedupCons(t, hs, HeadingTexts(seen));
          assert Dedup([t] + hs, HeadingTexts(seen)) == [t] + ks;
        } else {
          assert Stripped(Filter(lines, IsHeadingLine)) == hs;
          assert Stripped(Filter(Kept(lines, seen), IsHeadingLine)) == ks;
        }
      }
    }
  }

  lemma HeadingTextsAdd(seen: set<string>, t: string)
    ensures HeadingTexts(seen + {t}) == if StartsWith(t, "#") then HeadingTexts(seen) + {t} else HeadingTexts(seen)
  {
  }

  lemma StrippedHeadingsCons(x: string, rest: seq<string>)
    ensures Stripped(Filter([x] + rest, IsHeadingLine))
         == (if IsHeadingLine(x) then [Strip(x)] else []) + Stripped(Filter(rest, IsHeadingLine))
  {
    FilterCons(x, rest, IsHeadingLine);
    if IsHeadingLine(x) {
      StrippedCons(x, Filter(rest, IsHeadingLine));
    } else {
      assert [] + Filter(rest, IsHeadingLine) == Filter(rest, IsHeadingLine);
    }
  }

  lemma DedupCons<T>(t: T, xs: seq<T>, seen: set<T>)
    ensures Dedup([t] + xs, seen) == if t in seen then Dedup(xs, seen) else [t] + Dedup(xs, seen + {t})
  {
    assert ([t] + xs)[1..] == xs;
  }

  /**
   * `condense_markdown` keeps every body line, and keeps a heading exactly
   * when no earlier heading has the same stripped text: the surviving
   * heading texts are pairwise distinct and every heading text of the
   * input survives.
   */
  lemma KeptHeadings(lines: seq<string>)
    ensures Filter(Kept(lines, {}), IsBodyLine) == Filter(lines, IsBodyLine)
    ensures Stripped(Filter(Kept(lines, {}), IsHeadingLine))
         == Dedup(Stripped(Filter(lines, IsHeadingLine)), {})
    ensures Distinct(Stripped(Filter(Kept(lines, {}), IsHeadingLine)))
    ensures forall h :: h in Stripped(Filter(lines, IsHeadingLine))
                    <==> h in Stripped(Filter(Kept(lines, {}), IsHeadingLine))
  {
    KeptBodyLines(lines, {});
    KeptHeadingsGeneral(lines, {});
    assert HeadingTexts({}) == {};
    DedupDistinct(Stripped(Filter(lines, IsHeadingLine)), {});
  }

  /** Lines are only deleted, never reordered. */
  lemma {:induction false} KeptSubsequence(lines: seq<string>, seen: set<string>)
    ensures IsSubsequence(Kept(lines, seen), lines)
  {
    if lines != [] {
      var t := Strip(lines[0]);
      assert lines == [lines[0]] + lines[1..];
      if t in seen && StartsWith(t, "#") {
        KeptSubsequence(lines[1..], seen);
        SubsequenceOfCons(Kept(lines[1..], seen), lines[0], lines[1..]);
      } else {
        KeptSubsequence(lines[1..], seen + {t});
        SubsequenceOfCons(Kept(lines[1..], seen + {t}), lines[0], lines[1..]);
      }
    }
  }

  /**
   * The collapsed text has no three line breaks in a row, and it starts
   * with as many line breaks as the input, at most two.
   */
  lemma {:induction false} CollapseShape(s: string)
    ensures NoTripleBreak(CollapseNewlines(s))
    ensures Lead(CollapseNewlines(s)) == if Lead(s) >= 3 then 2 else Lead(s)
    decreases |s|
  {
    if s != [] {
      var n := Lead(s);
      if n >= 3 {
        var rest := CollapseNewlines(s[n..]);
        CollapseShape(s[n..]);
        assert Lead(s[n..]) == 0;
        LeadTwo(rest);
        assert CollapseNewlines(s) == "\n\n" + rest;
      } else {
        var rest := CollapseNewlines(s[1..]);
        CollapseShape(s[1..]);
        LeadCons(s[0], s[1..]);
        LeadCons(s[0], rest);
        ConsNoTriple(s[0], rest);
        assert CollapseNewlines(s) == [s[0]] + rest;
      }
    }
  }

  lemma LeadTwo(rest: string)
    requires rest != [] ==> rest[0] != '\n'
    requires NoTripleBreak(rest)
    ensures NoTripleBreak("\n\n" + rest)
    ensures Lead("\n\n" + rest) == 2
  {
    var r := "\n\n" + rest;
    assert r[2..] == rest;
    assert r[1..][1..] == rest;
    forall i | 0 <= i && i + 2 < |r|
      ensures !(r[i] == '\n' && r[i + 1] == '\n' && r[i + 2] == '\n')
    {
      if i >= 2 {
        assert r[i] == rest[i - 2] && r[i + 1] == rest[i - 1] && r[i + 2] == rest[i];
      } else if i == 1 {
        assert r[3] == rest[1] && r[2] == rest[0];
      } else {
        assert r[2] == rest[0];
      }
    }
  }

  lemma ConsNoTriple(c: char, rest: string)
    requires NoTripleBreak(rest)
    requires c == '\n' ==> Lead(rest) <= 1
    ensures NoTripleBreak([c] + rest)
  {
    var r := [c] + rest;
    forall i | 0 <= i && i + 2 < |r|
      ensures !(r[i] == '\n' && r[i + 1] == '\n' && r[i + 2] == '\n')
    {
      if i >= 1 {
        assert r[i] == rest[i - 1] && r[i + 1] == rest[i] && r[i + 2] == rest[i + 1];
      } else {
        assert r[1] == rest[0] && r[2] == rest[1];
      }
    }
  }

  lemma LeadCons(c: char, s: string)
    ensures Lead([c] + s) == if c == '\n' then 1 + Lead(s) else 0
  {
    assert ([c] + s)[1..] == s;
  }

  /** A text with no run of three line breaks is left as it is: collapsing is idempotent. */
  lemma {:induction false} CollapseNoTriple(s: string)
    requires NoTripleBreak(s)
    ensures CollapseNewlines(s) == s
    decreases |s|
  {
    if s != [] {
      if |s| >= 3 {
        assert !(s[0] == '\n' && s[1] == '\n' && s[2] == '\n');
      }
      assert Lead(s) < 3;
      assert NoTripleBreak(s[1..]) by {
        forall i | 0 <= i && i + 2 < |s[1..]|
          ensures !(s[1..][i] == '\n' && s[1..][i + 1] == '\n' && s[1..][i + 2] == '\n')
        {
          assert s[1..][i] == s[i + 1] && s[1..][i + 1] == s[i + 2] && s[1..][i + 2] == s[i + 3];
        }
      }
      CollapseNoTriple(s[1..]);
    }
  }

  lemma CollapseIdempotent(s: string)
    ensures CollapseNewlines(CollapseNewlines(s)) == CollapseNewlines(s)
  {
    CollapseShape(s);
    CollapseNoTriple(CollapseNewlines(s));
  }

  /** k line breaks. */
  function Breaks(k: nat): (r: string)
    ensures |r| == k && forall i :: 0 <= i < k ==> r[i] == '\n'
  {
    seq(k, i => '\n')
  }

  /** What a maximal run of k line breaks becomes: two when k >= 3, itself otherwise. */
  function CollapsedRun(k: nat): string {
    if k >= 3 then "\n\n" else Breaks(k)
  }

  lemma {:induction false} LeadOfBreaks(k: nat)
    ensures Lead(Breaks(k)) == k
  {
    if k > 0 {
      assert Breaks(k)[1..] == Breaks(k - 1);
      LeadOfBreaks(k - 1);
    }
  }

  /** Text after a run ends it: the run in front of a non-break character belongs to the front. */
  lemma {:induction false} LeadOfTextAfter(a: string, c: char, b: string)
    requires c != '\n'
    ensures Lead(a + [c] + b) == Lead(a)
    decreases |a|
  {
    var s := a + [c] + b;
    if a == [] {
      assert s[0] == c;
    } else {
      assert s[0] == a[0];
      if a[0] == '\n' {
        assert s[1..] == a[1..] + [c] + b;
        LeadOfTextAfter(a[1..], c, b);
      }
    }
  }

  /** A run of k line breaks on its own collapses to `CollapsedRun(k)`. */
  lemma {:induction false} CollapseRun(k: nat)
    ensures CollapseNewlines(Breaks(k)) == CollapsedRun(k)
  {
    LeadOfBreaks(k);
    if k >= 3 {
      assert Breaks(k)[k..] == [];
    } else if k > 0 {
      assert Breaks(k)[1..] == Breaks(k - 1);
      CollapseRun(k - 1);
      assert CollapseNewlines(Breaks(k)) == ['\n'] + Breaks(k - 1);
      assert ['\n'] + Breaks(k - 1) == Breaks(k);
    }
  }

  /**
   * A character other than a line break is kept, and each side of it is
   * collapsed on its own: no run of line breaks reaches across it.
   */
  lemma {:induction false} CollapseSplitsAtText(a: string, c: char, b: string)
    requires c != '\n'
    ensures CollapseNewlines(a + [c] + b) == CollapseNewlines(a) + [c] + CollapseNewlines(b)
    decreases |a|
  {
    var s := a + [c] + b;
    LeadOfTextAfter(a, c, b);
    var n := Lead(a);
    if a == [] {
      assert s[0] == c && s[1..] == b;
      assert CollapseNewlines(s) == [c] + CollapseNewlines(b);
    } else if n >= 3 {
      assert s[n..] == a[n..] + [c] + b;
      CollapseSplitsAtText(a[n..], c, b);
      var ra, rb := CollapseNewlines(a[n..]), CollapseNewlines(b);
      assert CollapseNewlines(s) == "\n\n" + (ra + [c] + rb);
      assert CollapseNewlines(a) == "\n\n" + ra;
      AppendAssoc("\n\n", ra + [c], rb);
      AppendAssoc("\n\n", ra, [c]);
    } else {
      assert s[0] == a[0] && s[1..] == a[1..] + [c] + b;
      CollapseSplitsAtText(a[1..], c, b);
      var ra, rb := CollapseNewlines(a[1..]), CollapseNewlines(b);
      assert CollapseNewlines(s) == [a[0]] + (ra + [c] + rb);
      assert CollapseNewlines(a) == [a[0]] + ra;
      AppendAssoc([a[0]], ra + [c], rb);
      AppendAssoc([a[0]], ra, [c]);
    }
  }

  /**
   * A maximal run of k line breaks between two other characters becomes
   * two breaks when k >= 3 and stays as it is otherwise; the text on
   * either side is collapsed on its own.
   */
  lemma CollapseInnerRun(a: string, d: char, k: nat, c: char, b: string)
    requires d != '\n' && c != '\n'
    ensures CollapseNewlines(a + [d] + Breaks(k) + [c] + b)
         == CollapseNewlines(a) + [d] + CollapsedRun(k) + [c] + CollapseNewlines(b)
  {
    var tail := Breaks(k) + [c] + b;
    AppendAssoc(a + [d], Breaks(k) + [c], b);
    AppendAssoc(a + [d], Breaks(k), [c]);
    CollapseSplitsAtText(a, d, tail);
    CollapseSplitsAtText(Breaks(k), c, b);
    CollapseRun(k);
    var ra, rb := CollapseNewlines(a), CollapseNewlines(b);
    AppendAssoc(ra + [d], CollapsedRun(k) + [c], rb);
    AppendAssoc(ra + [d], CollapsedRun(k), [c]);
  }

  // ---------------------------------------------------------------------
  // condense_html
  // ---------------------------------------------------------------------

  /** The text `get_text(strip=True)` reads from a heading. */
  function HeadingText(n: HtmlNode): string
    requires n.Heading?
  {
    Strip(n.text)
  }

  predicate IsNotSectionHeading(n: HtmlNode) {
    !IsSectionHeading(n)
  }

  /**
   * The page after the loop: an `h2` or `h3` whose text was already seen
   * on an earlier `h2` or `h3` is removed; every other node stays.
   */
  function CondensedNodes(nodes: seq<HtmlNode>, seen: set<string>): seq<HtmlNode>
  {
    if nodes == [] then []
    else if IsSectionHeading(nodes[0]) && HeadingText(nodes[0]) in seen then CondensedNodes(nodes[1..], seen)
    else if IsSectionHeading(nodes[0]) then [nodes[0]] + CondensedNodes(nodes[1..], seen + {HeadingText(nodes[0])})
    else [nodes[0]] + CondensedNodes(nodes[1..], seen)
  }

  /** Heading texts, node by node. */
  function SectionTexts(nodes: seq<HtmlNode>): (r: seq<string>)
    requires forall k :: 0 <= k < |nodes| ==> nodes[k].Heading?
    ensures |r| == |nodes|
  {
    if nodes == [] then [] else [HeadingText(nodes[0])] + SectionTexts(nodes[1..])
  }

  /** What the loop does with node i, given the texts seen so far. */
  lemma CondensedStep(nodes: seq<HtmlNode>, i: nat, seen: set<string>)
    requires i < |nodes|
    ensures IsSectionHeading(nodes[i]) && HeadingText(nodes[i]) in seen ==>
      CondensedNodes(nodes[i..], seen) == CondensedNodes(nodes[i + 1..], seen)
    ensures IsSectionHeading(nodes[i]) && HeadingText(nodes[i]) !in seen ==>
      CondensedNodes(nodes[i..], seen) == [nodes[i]] + CondensedNodes(nodes[i + 1..], seen + {HeadingText(nodes[i])})
    ensures !IsSectionHeading(nodes[i]) ==>
      CondensedNodes(nodes[i..], seen) == [nodes[i]] + CondensedNodes(nodes[i + 1..], seen)
  {
    assert nodes[i..][0] == nodes[i] && nodes[i..][1..] == nodes[i + 1..];
  }

  /** `condense_html` on the parsed page. */
  method CondenseHtml(nodes: seq<HtmlNode>) returns (page: seq<HtmlNode>)
    ensures page == CondensedNodes(nodes, {})
  {
    var seen: set<string> := {};
    page := [];
    var i := 0;
    while i < |nodes|
      invariant 0 <= i <= |nodes|
      invariant page + CondensedNodes(nodes[i..], seen) == CondensedNodes(nodes, {})
    {
      var node := nodes[i];
      CondensedStep(nodes, i, seen);
      if IsSectionHeading(node) {
        var text := HeadingText(node);
        if text !in seen {
          AppendAssoc(page, [node], CondensedNodes(nodes[i + 1..], seen + {text}));
          seen := seen + {text};
          page := page + [node];
        } else {
          // `tag.decompose()`
        }
      } else {
        AppendAssoc(page, [node], CondensedNodes(nodes[i + 1..], seen));
        page := page + [node];
      }
      i := i + 1;
    }
    assert nodes[i..] == [];
  }

  lemma SectionTextsCons(x: HtmlNode, s: seq<HtmlNode>)
    requires x.Heading? && forall k :: 0 <= k < |s| ==> s[k].Heading?
    ensures SectionTexts([x] + s) == [HeadingText(x)] + SectionTexts(s)
  {
    assert ([x] + s)[1..] == s;
  }

  lemma {:induction false} CondensedOtherNodes(nodes: seq<HtmlNode>, seen: set<string>)
    ensures Filter(CondensedNodes(nodes, seen), IsNotSectionHeading) == Filter(nodes, IsNotSectionHeading)
  {
    if nodes != [] {
      var x := nodes[0];
      assert nodes == [x] + nodes[1..];
      FilterCons(x, nodes[1..], IsNotSectionHeading);
      if IsSectionHeading(x) && HeadingText(x) in seen {
        CondensedOtherNodes(nodes[1..], seen);
      } else if IsSectionHeading(x) {
        CondensedOtherNodes(nodes[1..], seen + {HeadingText(x)});
        FilterCons(x, CondensedNodes(nodes[1..], seen + {HeadingText(x)}), IsNotSectionHeading);
      } else {
        CondensedOtherNodes(nodes[1..], seen);
        FilterCons(x, CondensedNodes(nodes[1..], seen), IsNotSectionHeading);
      }
    }
  }

  lemma {:induction false} CondensedSections(nodes: seq<HtmlNode>, seen: set<string>)
    ensures SectionTexts(Filter(CondensedNodes(nodes, seen), IsSectionHeading))
         == Dedup(SectionTexts(Filter(nodes, IsSectionHeading)), seen)
  {
    if nodes != [] {
      var x, rest := nodes[0], nodes[1..];
      assert nodes == [x] + rest;
      var hs := SectionTexts(Filter(rest, IsSectionHeading));
      SectionTextsFilterCons(x, rest);
      if IsSectionHeading(x) && HeadingText(x) in seen {
        assert CondensedNodes(nodes, seen) == CondensedNodes(rest, seen);
        CondensedSections(rest, seen);
        DedupCons(HeadingText(x), hs, seen);
        assert Dedup([HeadingText(x)] + hs, seen) == Dedup(hs, seen);
      } else if IsSectionHeading(x) {
        var seen' := seen + {HeadingText(x)};
        assert CondensedNodes(nodes, seen) == [x] + CondensedNodes(rest, seen');
        CondensedSections(rest, seen');
        var ks := SectionTexts(Filter(CondensedNodes(rest, seen'), IsSectionHeading));
        assert ks == Dedup(hs, seen');
        SectionTextsFilterCons(x, CondensedNodes(rest, seen'));
        DedupCons(HeadingText(x), hs, seen);
        assert Dedup([HeadingText(x)] + hs, seen) == [HeadingText(x)] + ks;
      } else {
        assert CondensedNodes(nodes, seen) == [x] + CondensedNodes(rest, seen);
        CondensedSections(rest, seen);
        SectionTextsFilterCons(x, CondensedNodes(rest, seen));
        assert SectionTexts(Filter(nodes, IsSectionHeading)) == hs;
      }
    }
  }

  lemma SectionTextsFilterCons(x: HtmlNode, rest: seq<HtmlNode>)
    ensures SectionTexts(Filter([x] + rest, IsSectionHeading))
         == (if IsSectionHeading(x) then [HeadingText(x)] else []) + SectionTexts(Filter(rest, IsSectionHeading))
  {
    FilterCons(x, rest, IsSectionHeading);
    if IsSectionHeading(x) {
      SectionTextsCons(x, Filter(rest, IsSectionHeading));
    } else {
      assert [] + Filter(rest, IsSectionHeading) == Filter(rest, IsSectionHeading);
    }
  }

  /**
   * `condense_html` leaves every node other than `h2`/`h3` in place, and of
   * the `h2`/`h3` headings keeps the first one of each text: one shared
   * `seen` set, so an `h3` repeating an `h2` text goes too.
   */
  lemma CondensedPage(nodes: seq<HtmlNode>)
    ensures Filter(CondensedNodes(nodes, {}), IsNotSectionHeading) == Filter(nodes, IsNotSectionHeading)
    ensures SectionTexts(Filter(CondensedNodes(nodes, {}), IsSectionHeading))
         == Dedup(SectionTexts(Filter(nodes, IsSectionHeading)), {})
    ensures Distinct(SectionTexts(Filter(CondensedNodes(nodes, {}), IsSectionHeading)))
    ensures forall h :: h in SectionTexts(Filter(nodes, IsSectionHeading))
                    <==> h in SectionTexts(Filter(CondensedNodes(nodes, {}), IsSectionHeading))
  {
    CondensedOtherNodes(nodes, {});
    CondensedSections(nodes, {});
    DedupDistinct(SectionTexts(Filter(nodes, IsSectionHeading)), {});
  }

  lemma {:induction false} CondensedSubsequence(nodes: seq<HtmlNode>, seen: set<string>)
    ensures IsSubsequence(CondensedNodes(nodes, seen), nodes)
  {
    if nodes != [] {
      var x := nodes[0];
      assert nodes == [x] + nodes[1..];
      if IsSectionHeading(x) && HeadingText(x) in seen {
        CondensedSubsequence(nodes[1..], seen);
        SubsequenceOfCons(CondensedNodes(nodes[1..], seen), x, nodes[1..]);
      } else if IsSectionHeading(x) {
        CondensedSubsequence(nodes[1..], seen + {HeadingText(x)});
        SubsequenceOfCons(CondensedNodes(nodes[1..], seen + {HeadingText(x)}), x, nodes[1..]);
      } else {
        CondensedSubsequence(nodes[1..], seen);
        SubsequenceOfCons(CondensedNodes(nodes[1..], seen), x, nodes[1..]);
      }
    }
  }
}
