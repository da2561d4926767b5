/**
 * get_all_vacancies and the run as a whole: listing pages, then URLs, then
 * one record per URL, then the rows. Fetching a detail page is the function
 * `fetch` (its `.b-vacancy` element, or None).
 */
module Pipeline {
  import opened Wrappers
  import opened Html
  import opened VacancyRecord
  import opened Pagination
  import opened VacancyLinks
  import opened VacancyPage
  import opened CsvOutput
  import opened CsrfToken

  /** The search page has the csrftoken cookie and a form token, and the endpoint answers last = true. */
  predicate ListingRead(searchPage: Soup, cookies: map<string, string>, server: seq<Response>) {
    "csrftoken" in cookies && FirstScriptToken(searchPage.scripts).Some? && HasLastAnswer(server)
  }

  /**
   * get_all_vacancies without the concurrency: parse every URL's page, in URL
   * order, or fail as soon as one page has no `.b-vacancy` element. `parse`
   * is the record parse_single_vacancy builds from an element (VacancyOf).
   */
  function GetAllVacancies(vacanciesUrls: seq<string>, fetch: string -> DetailPage, parse: (string, VacancyBlock) -> Vacancy)
    : (r: Result<seq<Vacancy>, Error>)
    ensures r.Success? <==> forall i | 0 <= i < |vacanciesUrls| :: fetch(vacanciesUrls[i]).Some?
    ensures r.Success? ==> (|r.value| == |vacanciesUrls| &&
      forall i | 0 <= i < |vacanciesUrls| :: r.value[i] == parse(vacanciesUrls[i], fetch(vacanciesUrls[i]).value))
    ensures r.Failure? ==> r.error == MissingVacancyBlock
  {
    if vacanciesUrls == [] then Success([])
    else if fetch(vacanciesUrls[0]).None? then Failure(MissingVacancyBlock)
    else
      var tail := vacanciesUrls[1..];
      assert forall i | 1 <= i < |vacanciesUrls| :: vacanciesUrls[i] == tail[i - 1];
      match GetAllVacancies(tail, fetch, parse)
      case Failure(e) => Failure(e)
      case Success(rest) => Success([parse(vacanciesUrls[0], fetch(vacanciesUrls[0]).value)] + rest)
  }

  /**
   * main(): page through the listing, collect the URLs, parse every detail
   * page and lay out the rows; the first step that fails ends the run with
   * its error. The program's record parser is VacancyOf; it is a parameter
   * here, so the contract holds for it in particular.
   */
  method Scrape(searchPage: Soup, cookies: map<string, string>, server: seq<Response>, fetch: string -> DetailPage,
                parse: (string, VacancyBlock) -> Vacancy)
    returns (rows: Result<seq<seq<Cell>>, Error>, urls: seq<string>)
    ensures "csrftoken" !in cookies ==> rows == Failure(MissingCsrfCookie)
    ensures "csrftoken" in cookies && FirstScriptToken(searchPage.scripts).None? ==> rows == Failure(TokenNotFound)
    ensures "csrftoken" in cookies && FirstScriptToken(searchPage.scripts).Some? && !HasLastAnswer(server) ==>
      rows == Failure(NoFinalPage)
    ensures ListingRead(searchPage, cookies, server) && !AllHaveHref(AllAnchors(ListingPages(searchPage, server))) ==>
      rows == Failure(MissingHref)
    ensures ListingRead(searchPage, cookies, server) && AllHaveHref(AllAnchors(ListingPages(searchPage, server))) ==>
      StrippedHrefs(AllAnchors(ListingPages(searchPage, server)), urls) &&
      (rows.Success? <==> forall i | 0 <= i < |urls| :: fetch(urls[i]).Some?) &&
      (rows.Failure? ==> rows.error == MissingVacancyBlock)
    ensures rows.Success? ==> ListingRead(searchPage, cookies, server) && AllHaveHref(AllAnchors(ListingPages(searchPage, server)))
    ensures rows.Success? ==> (|rows.value| == |urls| + 1 && rows.value[0] == HeaderRow &&
      forall i | 0 <= i < |urls| :: fetch(urls[i]).Some? && rows.value[i + 1] == Row(parse(urls[i], fetch(urls[i]).value)))
  {
    urls := [];
    var soups, sent := GetSearchPageAllVacanciesSoup(searchPage, cookies, server);
    if soups.Failure? {
      return Failure(soups.error), urls;
    }
    assert soups.value == ListingPages(searchPage, server);
    var found := ExtractVacanciesDetailedPageUrl(soups.value);
    if found.Failure? {
      return Failure(found.error), urls;
    }
    urls := found.value;
    var vacancies := GetAllVacancies(urls, fetch, parse);
    if vacancies.Failure? {
      return Failure(vacancies.error), urls;
    }
    var written := WriteToCsv(vacancies.value);
    rows := Success(written);
  }
}
