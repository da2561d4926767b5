/** Option and Result, and the failures the scraper raises. */
module Wrappers {

  datatype Option<+T> = None | Some(value: T)

  datatype Result<+R, +E> = Success(value: R) | Failure(error: E)

  /** The exceptions that end a run of the scraper (all of them are fatal). */
  datatype Error =
    | MissingCsrfCookie     // KeyError: the search page set no "csrftoken" cookie
    | TokenNotFound         // ValueError: no script holds window.CSRF_TOKEN = "..."
    | NoFinalPage           // the load-more endpoint never answered with last = true
    | MissingHref           // KeyError: a listing anchor has no href attribute
    | MissingVacancyBlock   // AttributeError: a detail page has no .b-vacancy element
}
