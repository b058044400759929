/**
 * A parsed HTML page as the documentation scripts see it: a sequence of
 * nodes in document order, where only headings matter. A heading has a
 * level (`h1` … `h6`), its text and, once the sidebar has named it, an
 * `id` attribute; everything else is opaque markup.
 */
module Html {
  import opened Wrappers

  datatype HtmlNode =
    | Heading(level: nat, text: string, id: Option<string>)
    | Other(markup: string)

  /** What `soup.find_all(['h2', 'h3'])` selects. */
  predicate IsSectionHeading(n: HtmlNode) {
    n.Heading? && (n.level == 2 || n.level == 3)
  }
}
