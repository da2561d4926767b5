/**
 * What the scraper reads out of a parsed HTML page, taken as given: the
 * HTML parser and its CSS selectors are outside this model.
 */
module Html {
  import opened Wrappers

  /** An `<a>` element: its attributes by name. */
  datatype Anchor = Anchor(attrs: map<string, string>)

  /**
   * A listing page or a load-more fragment:
   * scripts   -- `str(script)` of every <script> element, in document order:
   *              its markup, start tag and attributes included;
   * vtLinks   -- the elements selected by `a.vt`, in document order;
   * quotedVtLinks -- the elements selected by `\"vt\"`, in document order.
   */
  datatype Soup = Soup(scripts: seq<string>, vtLinks: seq<Anchor>, quotedVtLinks: seq<Anchor>)

  /**
   * The `.b-vacancy` element of a detail page:
   * texts  -- every text node under it, in document order;
   * salary -- the text of its `.salary` element, if it has one.
   */
  datatype VacancyBlock = VacancyBlock(texts: seq<string>, salary: Option<string>)

  /** A fetched detail page: its `.b-vacancy` element, or None when the page has none. */
  type DetailPage = Option<VacancyBlock>
}
