/**
 * The listing index: the search page, then the load-more endpoint posted to
 * with an offset of 20, 60, 100, ... until it answers with last = true.
 * The endpoint is an oracle: `server[k]` is its answer to the k-th POST
 * (counting from 0); an oracle that runs out before a last answer stands for
 * an endpoint that never sends one.
 */
module Pagination {
  import opened Wrappers
  import opened Html
  import opened CsrfToken

  /** The JSON answer of the load-more endpoint: {"html": ..., "last": ...}, the fragment parsed. */
  datatype Response = Response(html: Soup, last: bool)

  /** One POST: the csrftoken cookie and the form fields csrfmiddlewaretoken and count. */
  datatype Request = Request(csrfCookie: string, csrfMiddlewareToken: string, count: int)

  const FirstCount: int := 20
  const CountStep: int := 40

  /** The offset sent with the k-th POST, counting from 0. */
  function CountOfPost(k: nat): int {
    FirstCount + CountStep * k
  }

  /** The fragments of the first n answers, in request order. */
  function Fragments(server: seq<Response>, n: nat): (r: seq<Soup>)
    requires n <= |server|
    ensures |r| == n && forall k | 0 <= k < n :: r[k] == server[k].html
  {
    seq(n, k requires 0 <= k < n => server[k].html)
  }

  /** The endpoint eventually answers with last = true. */
  predicate HasLastAnswer(server: seq<Response>) {
    exists k | 0 <= k < |server| :: server[k].last
  }

  /**
   * How many POSTs the paging loop sends: up to and including the first
   * answer with last = true, or every answer when none has it.
   */
  function PostsSent(server: seq<Response>): (n: nat)
    ensures n <= |server|
    ensures forall k | 0 <= k < n - 1 :: !server[k].last
    ensures HasLastAnswer(server) <==> n >= 1 && server[n - 1].last
    ensures !HasLastAnswer(server) ==> n == |server|
  {
    if server == [] then 0
    else if server[0].last then 1
    else
      var rest := server[1..];
      assert forall k | 1 <= k < |server| :: server[k] == rest[k - 1];
      1 + PostsSent(rest)
  }

  /** The pages the listing is read from: the search page, then the fragment of every POST. */
  function ListingPages(searchPage: Soup, server: seq<Response>): seq<Soup> {
    [searchPage] + Fragments(server, PostsSent(server))
  }

  /**
   * get_all_vacancies_on_page: POST with a growing count, keep every
   * fragment, stop right after the first answer with last = true.
   */
  method GetAllVacanciesOnPage(csrfCookieToken: string, csrfFormToken: string, server: seq<Response>)
    returns (soups: Result<seq<Soup>, Error>, sent: seq<Request>)
    ensures |sent| == PostsSent(server)
    ensures forall k | 0 <= k < |sent| :: sent[k] == Request(csrfCookieToken, csrfFormToken, CountOfPost(k))
    ensures forall k | 0 <= k < |sent| - 1 :: !server[k].last
    ensures soups.Success? <==> HasLastAnswer(server)
    ensures soups.Success? ==> |sent| >= 1 && server[|sent| - 1].last && soups.value == Fragments(server, |sent|)
    ensures soups.Failure? ==> soups.error == NoFinalPage && |sent| == |server|
  {
    var additionalVacanciesSoups: seq<Soup> := [];
    var count := FirstCount;
    sent := [];
    while |sent| < |server|
      invariant |sent| <= |server|
      invariant count == CountOfPost(|sent|)
      invariant forall k | 0 <= k < |sent| :: sent[k] == Request(csrfCookieToken, csrfFormToken, CountOfPost(k))
      invariant forall k | 0 <= k < |sent| :: !server[k].last
      invariant additionalVacanciesSoups == Fragments(server, |sent|)
    {
      var response := server[|sent|];
      sent := sent + [Request(csrfCookieToken, csrfFormToken, count)];
      additionalVacanciesSoups := additionalVacanciesSoups + [response.html];
      if response.last {
        assert |sent| == PostsSent(server);
        return Success(additionalVacanciesSoups), sent;
      }
      count := count + CountStep;
    }
    soups := Failure(NoFinalPage);
  }

  /**
   * get_search_page_all_vacancies_soup: read the csrftoken cookie and the form
   * token of the search page, page through the endpoint, and put the search
   * page in front of the fragments.
   */
  method GetSearchPageAllVacanciesSoup(searchPage: Soup, cookies: map<string, string>, server: seq<Response>)
    returns (soups: Result<seq<Soup>, Error>, sent: seq<Request>)
    ensures |sent| <= |server| && forall k | 0 <= k < |sent| - 1 :: !server[k].last
    ensures "csrftoken" !in cookies ==> soups == Failure(MissingCsrfCookie) && sent == []
    ensures "csrftoken" in cookies && FirstScriptToken(searchPage.scripts).None? ==>
      soups == Failure(TokenNotFound) && sent == []
    ensures soups.Success? ==> "csrftoken" in cookies && FirstScriptToken(searchPage.scripts).Some?
    ensures "csrftoken" in cookies && FirstScriptToken(searchPage.scripts).Some? ==>
      forall k | 0 <= k < |sent| ::
        sent[k] == Request(cookies["csrftoken"], FirstScriptToken(searchPage.scripts).value, CountOfPost(k))
    ensures "csrftoken" in cookies && FirstScriptToken(searchPage.scripts).Some? ==>
      |sent| == PostsSent(server) && (soups.Success? <==> HasLastAnswer(server))
    ensures soups.Success? ==>
      1 <= |sent| <= |server| && server[|sent| - 1].last && soups.value == [searchPage] + Fragments(server, |sent|)
    ensures soups.Failure? && "csrftoken" in cookies && FirstScriptToken(searchPage.scripts).Some? ==>
      soups.error == NoFinalPage
  {
    if "csrftoken" !in cookies {
      return Failure(MissingCsrfCookie), [];
    }
    var csrfCookieToken := cookies["csrftoken"];
    var csrfFormToken := GetCsrfFormToken(searchPage.scripts);
    if csrfFormToken.Failure? {
      return Failure(csrfFormToken.error), [];
    }
    var additionalVacanciesSoups;
    additionalVacanciesSoups, sent := GetAllVacanciesOnPage(csrfCookieToken, csrfFormToken.value, server);
    if additionalVacanciesSoups.Failure? {
      return Failure(additionalVacanciesSoups.error), sent;
    }
    soups := Success([searchPage] + additionalVacanciesSoups.value);
  }
}
