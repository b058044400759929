/**
 * `generate_sidebar_nav` of `generate_docs.py`: give every h2/h3 heading
 * an `id` made from its text, unique within the page, and build the
 * sidebar list that links to the level-2 headings.
 */
module Sidebar {
  import opened Wrappers
  import opened Text
  import opened Seqs
  import opened Html

  // ---------------------------------------------------------------------
  // Slugs
  // ---------------------------------------------------------------------

  /** The characters `[a-z0-9\-]` a slug keeps. */
  predicate IsSlugChar(c: char) {
    IsLower(c) || IsDigit(c) || c == '-'
  }

  predicate IsSlug(s: string) {
    forall i :: 0 <= i < |s| ==> IsSlugChar(s[i])
  }

  /** `re.sub(r'\s+', '-', s)`: every maximal run of whitespace becomes one '-'. */
  function DashWhitespace(s: string): (r: string)
    ensures forall i :: 0 <= i < |r| ==> !IsSpace(r[i])
    ensures |r| <= |s|
    decreases |s|
  {
    if s == [] then []
    else if IsSpace(s[0]) then
      "-" + DashWhitespace(TrimLeft(s))
    else [s[0]] + DashWhitespace(s[1..])
  }

  /** The text lower-cased, whitespace runs turned into '-', and every other non-slug character dropped. */
  function SlugBase(headingText: string): (r: string)
    ensures IsSlug(r)
  {
    var r := Filter(DashWhitespace(Lower(headingText)), IsSlugChar);
    r
  }

  /** A letter changes case only; whitespace is never upper case, so it is kept. */
  lemma LowerKeepsSpace(c: char)
    ensures IsSpace(LowerChar(c)) <==> IsSpace(c)
  {
  }

  lemma LowerSplits(a: string, c: char, b: string)
    ensures Lower(a + [c] + b) == Lower(a) + [LowerChar(c)] + Lower(b)
  {
  }

  /** Skipping leading whitespace stops at the first other character. */
  lemma {:induction false} TrimLeftSplits(a: string, c: char, b: string)
    requires !IsSpace(c)
    ensures TrimLeft(a + [c] + b) == TrimLeft(a) + [c] + b
  {
    if a == [] {
      assert a + [c] + b == [c] + b;
    } else {
      assert (a + [c] + b)[0] == a[0];
      if IsSpace(a[0]) {
        assert (a + [c] + b)[1..] == a[1..] + [c] + b;
        TrimLeftSplits(a[1..], c, b);
      }
    }
  }

  /** A whitespace run on its own becomes a single '-'. */
  lemma DashWhitespaceRun(w: string)
    requires w != [] && forall i :: 0 <= i < |w| ==> IsSpace(w[i])
    ensures DashWhitespace(w) == "-"
  {
    assert TrimLeft(w) == [];
  }

  /** A non-whitespace character is kept, and each side is rewritten on its own. */
  lemma {:induction false} DashWhitespaceSplits(a: string, c: char, b: string)
    requires !IsSpace(c)
    ensures DashWhitespace(a + [c] + b) == DashWhitespace(a) + [c] + DashWhitespace(b)
    decreases |a|
  {
    var s := a + [c] + b;
    if a == [] {
      assert s == [c] + b;
      assert s[1..] == b;
    } else if IsSpace(a[0]) {
      assert s[0] == a[0];
      TrimLeftSplits(a, c, b);
      var t := TrimLeft(a);
      DashWhitespaceSplits(t, c, b);
      AppendAssoc("-", DashWhitespace(t) + [c], DashWhitespace(b));
      AppendAssoc("-", DashWhitespace(t), [c]);
    } else {
      assert s[0] == a[0];
      assert s[1..] == a[1..] + [c] + b;
      DashWhitespaceSplits(a[1..], c, b);
      AppendAssoc([a[0]], DashWhitespace(a[1..]) + [c], DashWhitespace(b));
      AppendAssoc([a[0]], DashWhitespace(a[1..]), [c]);
    }
  }

  /** Text without whitespace is left as it is. */
  lemma {:induction false} DashWhitespaceNoSpace(s: string)
    requires forall i :: 0 <= i < |s| ==> !IsSpace(s[i])
    ensures DashWhitespace(s) == s
  {
    if s != [] {
      DashWhitespaceNoSpace(s[1..]);
    }
  }

  /** The characters of the base that one non-whitespace character contributes. */
  function SlugOf(c: char): string {
    if IsSlugChar(LowerChar(c)) then [LowerChar(c)] else []
  }

  /** A whitespace run on its own gives the base "-". */
  lemma SlugBaseRun(w: string)
    requires w != [] && forall i :: 0 <= i < |w| ==> IsSpace(w[i])
    ensures SlugBase(w) == "-"
  {
    var l := Lower(w);
    forall i | 0 <= i < |l| ensures IsSpace(l[i]) {
      LowerKeepsSpace(w[i]);
    }
    DashWhitespaceRun(l);
    assert Filter("-", IsSlugChar) == "-";
  }

  /**
   * A non-whitespace character contributes its lower-case form when that is
   * a slug character and nothing otherwise, and each side gives its own base.
   */
  lemma SlugBaseSplits(a: string, c: char, b: string)
    requires !IsSpace(c)
    ensures SlugBase(a + [c] + b) == SlugBase(a) + SlugOf(c) + SlugBase(b)
  {
    LowerSplits(a, c, b);
    LowerKeepsSpace(c);
    DashWhitespaceSplits(Lower(a), LowerChar(c), Lower(b));
    var x, y := DashWhitespace(Lower(a)), DashWhitespace(Lower(b));
    FilterConcat(x + [LowerChar(c)], y, IsSlugChar);
    FilterConcat(x, [LowerChar(c)], IsSlugChar);
    assert Filter([LowerChar(c)], IsSlugChar) == SlugOf(c);
  }

  /**
   * A whitespace run between two other characters becomes exactly one '-'
   * in the base.
   */
  lemma SlugBaseInnerRun(a: string, d: char, w: string, c: char, b: string)
    requires !IsSpace(d) && !IsSpace(c)
    requires w != [] && forall i :: 0 <= i < |w| ==> IsSpace(w[i])
    ensures SlugBase(a + [d] + w + [c] + b) == SlugBase(a) + SlugOf(d) + "-" + SlugOf(c) + SlugBase(b)
  {
    var r := w + [c] + b;
    AppendAssoc(a + [d], w + [c], b);
    AppendAssoc(a + [d], w, [c]);
    SlugBaseSplits(a, d, r);
    SlugBaseSplits(w, c, b);
    SlugBaseRun(w);
    var x, y, z, v := SlugBase(a), SlugOf(d), SlugOf(c), SlugBase(b);
    assert SlugBase(r) == "-" + z + v;
    AppendAssoc(x + y, "-" + z, v);
    AppendAssoc(x + y, "-", z);
  }

  /** A word of letters, digits and '-' gives itself, lower-cased. */
  lemma SlugBaseOfWord(s: string, l: string)
    requires |s| == |l| && forall i :: 0 <= i < |s| ==> LowerChar(s[i]) == l[i] && IsSlugChar(l[i])
    ensures SlugBase(s) == l
  {
    var lower := Lower(s);
    assert lower == l;
    forall i | 0 <= i < |l| ensures !IsSpace(l[i]) { }
    DashWhitespaceNoSpace(l);
    FilterKeepsAll(l, IsSlugChar);
  }

  lemma {:induction false} FilterKeepsAll(s: string, p: char -> bool)
    requires forall i :: 0 <= i < |s| ==> p(s[i])
    ensures Filter(s, p) == s
  {
    if s != [] {
      FilterKeepsAll(s[1..], p);
    }
  }

  /** `f"{slug_base}-{count}"`. */
  function Suffixed(base: string, count: nat): (r: string)
    ensures |r| > |NatToString(count)|
  {
    base + "-" + NatToString(count)
  }

  lemma SuffixedIsSlug(base: string, count: nat)
    requires IsSlug(base)
    ensures IsSlug(Suffixed(base, count))
  {
    var r := Suffixed(base, count);
    var digits := NatToString(count);
    forall i | 0 <= i < |r| ensures IsSlugChar(r[i]) {
      if i < |base| {
        assert r[i] == base[i];
      } else if i > |base| {
        assert r[i] == digits[i - |base| - 1];
      }
    }
  }

  /**
   * The id the loop settles on: the base itself when no earlier heading
   * uses it, otherwise `base-n` for the smallest n >= 1 that is unused.
   */
  ghost predicate IsChosenId(id: string, base: string, used: set<string>) {
    (base !in used && id == base)
    || (base in used && exists n :: (n >= 1 && id == Suffixed(base, n) && id !in used
          && forall m :: 1 <= m < n ==> Suffixed(base, m) in used))
  }

  /** An upper bound on the lengths of the ids in use. */
  ghost function MaxLen(used: set<string>): (m: nat)
    ensures forall x :: x in used ==> |x| <= m
    decreases |used|
  {
    if used == {} then 0
    else
      var x :| x in used;
      var m := MaxLen(used - {x});
      if |x| > m then |x| else m
  }

  /**
   * The suffix loop: try the base, then `base-1`, `base-2`, … until an
   * unused id turns up. It stops because `base-n` for n >= 10^L is longer
   * than every id in use, L being the longest of them.
   */
  method ChooseSlug(base: string, used: set<string>) returns (slug: string)
    ensures IsChosenId(slug, base, used)
    ensures slug !in used
  {
    ghost var bound := Pow10(MaxLen(used));
    slug := base;
    var count := 1;
    while slug in used
      invariant 1 <= count <= bound + 1
      invariant count == 1 ==> slug == base
      invariant count > 1 ==> base in used && slug == Suffixed(base, count - 1)
      invariant forall m :: 1 <= m < count - 1 ==> Suffixed(base, m) in used
      decreases bound + 1 - count
    {
      if count > 1 && count - 1 >= bound {
        NatToStringLength(count - 1, MaxLen(used));
        assert false;
      }
      slug := Suffixed(base, count);
      count := count + 1;
    }
  }

  lemma ChosenIdIsSlug(id: string, base: string, used: set<string>)
    requires IsSlug(base) && IsChosenId(id, base, used)
    ensures IsSlug(id)
  {
    if base in used {
      var n :| n >= 1 && id == Suffixed(base, n) && id !in used;
      SuffixedIsSlug(base, n);
    }
  }

  /** The last character of a word and what comes before it. */
  lemma WordLast(a: string, la: string)
    requires a != [] && |a| == |la| && forall i :: 0 <= i < |a| ==> LowerChar(a[i]) == la[i] && IsSlugChar(la[i])
    ensures !IsSpace(a[|a| - 1])
    ensures SlugBase(a[..|a| - 1]) + SlugOf(a[|a| - 1]) == la
  {
    var n := |a| - 1;
    LowerKeepsSpace(a[n]);
    SlugBaseOfWord(a[..n], la[..n]);
    assert la == la[..n] + [la[n]];
  }

  /** The first character of a word and what comes after it. */
  lemma WordFirst(b: string, lb: string)
    requires b != [] && |b| == |lb| && forall i :: 0 <= i < |b| ==> LowerChar(b[i]) == lb[i] && IsSlugChar(lb[i])
    ensures !IsSpace(b[0])
    ensures SlugOf(b[0]) + SlugBase(b[1..]) == lb
  {
    LowerKeepsSpace(b[0]);
    SlugBaseOfWord(b[1..], lb[1..]);
    assert lb == [lb[0]] + lb[1..];
  }

  /** A trailing character outside the slug alphabet is dropped. */
  lemma SlugBaseDropsLast(m: string, x: char)
    requires !IsSpace(x) && !IsSlugChar(LowerChar(x))
    ensures SlugBase(m + [x]) == SlugBase(m)
  {
    SlugBaseSplits(m, x, []);
    AppendNil(m + [x]);
    AppendNil(SlugBase(m));
    assert SlugBase([]) == [];
  }

  /**
   * Two words separated by whitespace and followed by one character the
   * slug drops.
   */
  lemma WordsBase(a: string, la: string, w: string, b: string, lb: string, x: char)
    requires a != [] && |a| == |la| && forall i :: 0 <= i < |a| ==> LowerChar(a[i]) == la[i] && IsSlugChar(la[i])
    requires b != [] && |b| == |lb| && forall i :: 0 <= i < |b| ==> LowerChar(b[i]) == lb[i] && IsSlugChar(lb[i])
    requires w != [] && forall i :: 0 <= i < |w| ==> IsSpace(w[i])
    requires !IsSpace(x) && !IsSlugChar(LowerChar(x))
    ensures SlugBase(a + w + b + [x]) == la + "-" + lb
  {
    var n := |a| - 1;
    var d, a0, c, b1 := a[n], a[..n], b[0], b[1..];
    WordLast(a, la);
    WordFirst(b, lb);
    assert a == a0 + [d];
    assert b == [c] + b1;
    AppendAssoc(a + w, [c], b1);
    SlugBaseInnerRun(a0, d, w, c, b1);
    var y, z, v := SlugBase(a0) + SlugOf(d), SlugOf(c), SlugBase(b1);
    AppendAssoc(y + "-", z, v);
    SlugBaseDropsLast(a + w + b, x);
  }

  lemma GettingStartedParts()
    ensures "Getting" + " " + "Started" + ['!'] == "Getting Started!"
    ensures "getting" + "-" + "started" == "getting-started"
  {
  }

  lemma OverviewBase()
    ensures SlugBase("Overview") == "overview"
  {
    SlugBaseOfWord("Overview", "overview");
  }

  lemma GettingStartedBase()
    ensures SlugBase("Getting Started!") == "getting-started"
  {
    WordsBase("Getting", "getting", " ", "Started", "started", '!');
    GettingStartedParts();
  }

  /** A heading whose base is already in use gets `base-1` when that is free. */
  lemma SecondHeading(base: string, used: set<string>)
    requires base in used && Suffixed(base, 1) !in used
    ensures IsChosenId(Suffixed(base, 1), base, used)
  {
  }

  /** A second heading "Overview" becomes `overview-1`. */
  lemma SecondOverview()
    ensures var base := SlugBase("Overview");
      IsChosenId(Suffixed(base, 1), base, {base}) && Suffixed(base, 1) == "overview-1"
  {
    var base := SlugBase("Overview");
    assert |Suffixed(base, 1)| > |base|;
    SecondHeading(base, {base});
    OverviewBase();
    OverviewSuffixed();
  }

  lemma OverviewSuffixed()
    ensures Suffixed("overview", 1) == "overview-1"
  {
    assert NatToString(1) == "1";
  }

  // ---------------------------------------------------------------------
  // The sidebar
  // ---------------------------------------------------------------------

  /** One `sidebar_links` record. */
  datatype SidebarLink = SidebarLink(id: string, text: string, level: nat)

  function IdSet(links: seq<SidebarLink>): set<string> {
    set k | 0 <= k < |links| :: links[k].id
  }

  /** The h2/h3 headings, in document order. */
  function SectionHeadings(nodes: seq<HtmlNode>): seq<HtmlNode> {
    Filter(nodes, IsSectionHeading)
  }

  /**
   * The records are those of the h2/h3 headings, in order, each with the
   * stripped heading text, its level, and the id chosen against the ids
   * of the records before it.
   */
  ghost predicate LinksFor(links: seq<SidebarLink>, headings: seq<HtmlNode>) {
    Pointwise(links, headings, LinkFor)
  }

  /** Each x is related by p to the y at the same place and to the xs before it. */
  ghost predicate Pointwise<A, B>(xs: seq<A>, ys: seq<B>, p: (A, B, seq<A>) -> bool) {
    |xs| == |ys| && forall k :: 0 <= k < |xs| ==> p(xs[k], ys[k], xs[..k])
  }

  lemma PointwiseAppend<A, B>(xs: seq<A>, ys: seq<B>, x: A, y: B, p: (A, B, seq<A>) -> bool)
    requires Pointwise(xs, ys, p) && p(x, y, xs)
    ensures Pointwise(xs + [x], ys + [y], p)
  {
    var xs', ys' := xs + [x], ys + [y];
    forall k | 0 <= k < |xs'|
      ensures p(xs'[k], ys'[k], xs'[..k])
    {
      if k < |xs| {
        assert xs'[k] == xs[k] && ys'[k] == ys[k] && xs'[..k] == xs[..k];
      } else {
        assert xs'[..k] == xs;
      }
    }
  }

  /** The record for heading `h`, given the records before it. */
  ghost predicate LinkFor(link: SidebarLink, h: HtmlNode, before: seq<SidebarLink>) {
    h.Heading?
    && link.text == Strip(h.text)
    && link.level == h.level
    && IsChosenId(link.id, SlugBase(link.text), IdSet(before))
  }

  /** The page after the ids are written: the same nodes, the h2/h3 headings carrying the chosen ids in order. */
  predicate IdsWritten(out: seq<HtmlNode>, nodes: seq<HtmlNode>, links: seq<SidebarLink>) {
    |out| == |nodes|
    && (forall i :: 0 <= i < |nodes| && !IsSectionHeading(nodes[i]) ==> out[i] == nodes[i])
    && (forall i :: 0 <= i < |nodes| && IsSectionHeading(nodes[i]) ==>
          out[i].Heading? && out[i] == nodes[i].(id := out[i].id))
    && |SectionHeadings(out)| == |links|
    && forall k :: 0 <= k < |links| ==> SectionHeadings(out)[k].id == Some(links[k].id)
  }

  /** Every chosen id differs from the ids chosen before it. */
  lemma ChosenIdIsFresh(id: string, base: string, used: set<string>)
    requires IsChosenId(id, base, used)
    ensures id !in used
  {
  }

  /** All ids chosen this way are pairwise distinct, and all are slugs. */
  lemma {:induction false} ChosenIdsDistinct(links: seq<SidebarLink>, headings: seq<HtmlNode>)
    requires LinksFor(links, headings)
    ensures forall j, k :: 0 <= j < k < |links| ==> links[j].id != links[k].id
    ensures forall k :: 0 <= k < |links| ==> IsSlug(links[k].id)
  {
    forall j, k | 0 <= j < k < |links| ensures links[j].id != links[k].id {
      assert links[..k][j] == links[j];
      assert links[j].id in IdSet(links[..k]);
      ChosenIdIsFresh(links[k].id, SlugBase(links[k].text), IdSet(links[..k]));
    }
    forall k | 0 <= k < |links| ensures IsSlug(links[k].id) {
      ChosenIdIsSlug(links[k].id, SlugBase(links[k].text), IdSet(links[..k]));
    }
  }

  lemma SectionHeadingsAppend(nodes: seq<HtmlNode>, node: HtmlNode)
    ensures SectionHeadings(nodes + [node])
         == SectionHeadings(nodes) + (if IsSectionHeading(node) then [node] else [])
  {
    FilterConcat(nodes, [node], IsSectionHeading);
    assert [node][1..] == [];
  }

  lemma LinksForStep(links: seq<SidebarLink>, headings: seq<HtmlNode>, link: SidebarLink, h: HtmlNode)
    requires LinksFor(links, headings)
    requires LinkFor(link, h, links)
    ensures LinksFor(links + [link], headings + [h])
  {
    PointwiseAppend(links, headings, link, h, LinkFor);
  }

  lemma IdSetAppend(links: seq<SidebarLink>, link: SidebarLink)
    ensures IdSet(links + [link]) == IdSet(links) + {link.id}
  {
    var ls := links + [link];
    assert forall k :: 0 <= k < |links| ==> ls[k] == links[k];
    assert ls[|links|] == link;
  }

  lemma IdsWrittenHeading(out: seq<HtmlNode>, nodes: seq<HtmlNode>, links: seq<SidebarLink>,
                          node: HtmlNode, link: SidebarLink)
    requires IdsWritten(out, nodes, links) && IsSectionHeading(node)
    ensures IdsWritten(out + [node.(id := Some(link.id))], nodes + [node], links + [link])
  {
    var written := node.(id := Some(link.id));
    SectionHeadingsAppend(out, written);
  }

  lemma IdsWrittenOther(out: seq<HtmlNode>, nodes: seq<HtmlNode>, links: seq<SidebarLink>, node: HtmlNode)
    requires IdsWritten(out, nodes, links) && !IsSectionHeading(node)
    ensures IdsWritten(out + [node], nodes + [node], links)
  {
    SectionHeadingsAppend(out, node);
  }

  const NavOpen: string := "<ul class=\"nav flex-column\">"
  const NavClose: string := "</ul>"

  /** The list item for one record. */
  function NavItem(link: SidebarLink): string {
    "<li class=\"nav-item\"><a class=\"nav-link\" href=\"#" + link.id + "\">" + link.text + "</a></li>"
  }

  predicate IsLevel2(link: SidebarLink) {
    link.level == 2
  }

  /** What the loop over the records appends: an item for each level-2 record. */
  function NavBody(links: seq<SidebarLink>): string {
    if links == [] then []
    else
      var last := links[|links| - 1];
      NavBody(links[..|links| - 1]) + (if last.level == 2 then NavItem(last) else [])
  }

  /** The list items of the sidebar: one per level-2 record, in order. */
  function NavItems(links: seq<SidebarLink>): seq<string>
  {
    MapSeq(Filter(links, IsLevel2), NavItem)
  }

  /** The sidebar links exactly to the level-2 headings, in document order; level-3 headings get no item. */
  lemma {:induction false} NavBodyIsLevel2Items(links: seq<SidebarLink>)
    ensures NavBody(links) == Concat(NavItems(links))
  {
    if links != [] {
      var n := |links| - 1;
      var prefix, last := links[..n], links[n];
      NavBodyIsLevel2Items(prefix);
      assert links == prefix + [last];
      NavItemsAppend(prefix, last);
      if last.level == 2 {
        ConcatAppend(NavItems(prefix), NavItem(last));
        assert NavBody(links) == NavBody(prefix) + NavItem(last);
        assert NavItems(links) == NavItems(prefix) + [NavItem(last)];
      } else {
        assert NavBody(links) == NavBody(prefix) + [];
        assert NavItems(links) == NavItems(prefix) + [];
        AppendNil(NavBody(prefix));
        AppendNil(NavItems(prefix));
      }
    } else {
      assert Filter(links, IsLevel2) == [];
      assert NavItems(links) == [];
    }
  }

  lemma NavItemsAppend(prefix: seq<SidebarLink>, last: SidebarLink)
    ensures NavItems(prefix + [last]) == NavItems(prefix) + (if last.level == 2 then [NavItem(last)] else [])
  {
    FilterConcat(prefix, [last], IsLevel2);
    assert Filter([last], IsLevel2) == if last.level == 2 then [last] else [] by {
      assert [last][1..] == [];
    }
    MapSeqAppend(Filter(prefix, IsLevel2), Filter([last], IsLevel2), NavItem);
  }

  /** Give ids to the h2/h3 headings, each unique among those before it. */
  method AssignIds(nodes: seq<HtmlNode>) returns (links: seq<SidebarLink>, out: seq<HtmlNode>)
    ensures LinksFor(links, SectionHeadings(nodes))
    ensures IdsWritten(out, nodes, links)
  {
    links := [];
    out := [];
    var usedIds: set<string> := {};
    for i := 0 to |nodes|
      invariant LinksFor(links, SectionHeadings(nodes[..i]))
      invariant IdsWritten(out, nodes[..i], links)
      invariant usedIds == IdSet(links)
    {
      var node := nodes[i];
      assert nodes[..i + 1] == nodes[..i] + [node];
      SectionHeadingsAppend(nodes[..i], node);
      if IsSectionHeading(node) {
        var headingText := Strip(node.text);
        var slugBase := SlugBase(headingText);
        var slug := ChooseSlug(slugBase, usedIds);
        var link := SidebarLink(slug, headingText, node.level);
        assert LinkFor(link, node, links);
        LinksForStep(links, SectionHeadings(nodes[..i]), link, node);
        IdsWrittenHeading(out, nodes[..i], links, node, link);
        IdSetAppend(links, link);
        links := links + [link];
        out := out + [node.(id := Some(slug))];
        usedIds := usedIds + {slug};
      } else {
        IdsWrittenOther(out, nodes[..i], links, node);
        out := out + [node];
      }
    }
    assert nodes[..|nodes|] == nodes;
  }

  /** Build the sidebar list: the opening tag, an item per level-2 record, the closing tag. */
  method BuildNav(links: seq<SidebarLink>) returns (navHtml: string)
    ensures navHtml == NavOpen + NavBody(links) + NavClose
  {
    navHtml := NavOpen;
    for k := 0 to |links|
      invariant navHtml == NavOpen + NavBody(links[..k])
    {
      var link := links[k];
      assert links[..k + 1][..k] == links[..k];
      assert NavBody(links[..k + 1]) == NavBody(links[..k]) + (if link.level == 2 then NavItem(link) else []);
      if link.level == 2 {
        AppendAssoc(NavOpen, NavBody(links[..k]), NavItem(link));
        navHtml := navHtml + NavItem(link);
      } else {
        assert NavBody(links[..k]) + [] == NavBody(links[..k]);
      }
    }
    assert links[..|links|] == links;
    AppendAssoc(NavOpen, NavBody(links), NavClose);
    navHtml := navHtml + NavClose;
  }

  /**
   * `generate_sidebar_nav`: the sidebar list, the records it was built
   * from, and the page with the ids written into its headings. The ids are
   * pairwise distinct slugs, and the list links to the level-2 records in
   * order.
   */
  method GenerateSidebarNav(nodes: seq<HtmlNode>)
    returns (navHtml: string, links: seq<SidebarLink>, out: seq<HtmlNode>)
    ensures LinksFor(links, SectionHeadings(nodes))
    ensures IdsWritten(out, nodes, links)
    ensures forall j, k :: 0 <= j < k < |links| ==> links[j].id != links[k].id
    ensures forall k :: 0 <= k < |links| ==> IsSlug(links[k].id)
    ensures navHtml == NavOpen + Concat(NavItems(links)) + NavClose
  {
    links, out := AssignIds(nodes);
    ChosenIdsDistinct(links, SectionHeadings(nodes));
    navHtml := BuildNav(links);
    NavBodyIsLevel2Items(links);
  }
}
