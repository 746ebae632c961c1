/**
 * The check `scrape_wikipedia_article` makes once the page is parsed: the
 * page must have an element with id `firstHeading` (the title) and one with
 * id `mw-content-text` (the article body).
 */
module Article {
  import opened Wrappers
  import opened Document

  const TitleQuery: Query := Query(None, Some("firstHeading"), None, None)
  const ContentQuery: Query := Query(None, Some("mw-content-text"), None, None)
  const MissingElements: string := "Failed to find expected elements in the Wikipedia page"

  /** The title text and the body element of an article page. */
  datatype Page = Page(title: string, content: Node)

  /**
   * Lines 46-52: `soup.find(id=...)` for both elements; the `ValueError` is
   * the error case. `soup` is the root of the parsed document.
   */
  function LocateArticle(soup: Node): (r: Result<Page, string>)
    ensures r.Err? ==> r.error == MissingElements
    ensures r.Ok? ==> Matches(ContentQuery, r.value.content)
  {
    match Find(soup, TitleQuery)
    case None => Err(MissingElements)
    case Some(title) =>
      match Find(soup, ContentQuery)
      case None => Err(MissingElements)
      case Some(content) => Ok(Page(GetText(title), content))
  }

  /**
   * The page is accepted exactly when both ids occur in it; the title is the
   * text of the first `firstHeading` in document order and the body is the
   * first `mw-content-text`.
   */
  lemma LocateArticleFirstMatches(soup: Node)
    ensures LocateArticle(soup).Ok? <==> FindAll(soup, TitleQuery) != [] && FindAll(soup, ContentQuery) != []
    ensures LocateArticle(soup).Ok? ==>
      LocateArticle(soup).value == Page(GetText(FindAll(soup, TitleQuery)[0]), FindAll(soup, ContentQuery)[0])
  {
    FindIsFirstOfFindAll(soup, TitleQuery);
    FindIsFirstOfFindAll(soup, ContentQuery);
  }
}
