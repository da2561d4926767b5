# dou_vacancies_analysis scraper core in Dafny

This project models the logic of `parsing/parse.py` that sits between the
network calls of the jobs.dou.ua vacancy scraper, and proves what it does:

- **Form token** (`get_csrf_form_token`): the search page's scripts, each as
  `str(script)` (its whole markup, start tag and attributes included), are
  scanned in order with the pattern `window\.CSRF_TOKEN\s*=\s*"(.+?)"`; the
  first capture wins, and no match is a `ValueError`. The regex engine's
  attempt at one position is a deterministic function (`MatchAt`), proved
  equal to the pattern read as a relation (`TokenMatch`: any placement of the
  whitespace runs, a lazy capture). `SearchFrom` is `re.search`, proved to
  report the leftmost match.
- **Pagination** (`get_all_vacancies_on_page`,
  `get_search_page_all_vacancies_soup`): a loop that POSTs `count` = 20, 60,
  100, ... to the load-more endpoint and stops right after the first answer
  with `last` true, keeping that answer's fragment. The endpoint is a finite
  sequence of answers; the search page goes in front of the fragments.
- **Link extraction** (`extract_vacancies_detailed_page_url`): nested loops
  that collect, page after page, the stripped hrefs of the `a.vt` anchors and
  then of the `\"vt\"` anchors, duplicates kept.
- **Detail page** (`parse_single_vacancy`): the page is its `.b-vacancy`
  element, given as its text nodes and its optional `.salary` text. The
  remote and part-time flags, the experience scan with its synonym collapse,
  the salary from the digit runs, and the technology and tag filters over the
  two vocabularies of `config.py`.
- **CSV layout** (`write_to_csv`): the header row and one row of typed
  cells per record, in header order.
- **Run** (`get_all_vacancies`, `main`): parse every URL in order, then write
  the rows.

Errors are values of `Wrappers.Error`: a missing `csrftoken` cookie
(`KeyError`), no token (`ValueError`), an endpoint that never answers
`last` (the source loops forever), an anchor without `href` (`KeyError`),
and a detail page without `.b-vacancy` (`AttributeError` on `None`).

Python's string built-ins are modelled in `Text`: `\s` and `strip()` use the
`str.isspace` character set, `\d` is an ASCII digit, `.` is any character but
a newline, and `str.lower` is a per-character mapping of ASCII A–Z and the
Russian/Ukrainian capitals U+0400–U+042F and U+0490; every other character is
left as it is.

The salary code calls `s.replace(",", "")` on each `\d+` run, which never
contains a comma, so a thousands separator splits a number: "30,000" gives
min 30 and max 0. The `replace(",", "")` call shows separators were meant to
be removed; the model follows the code as written, and
`ThousandsSeparatorSplitsNumber` states what it does.

## Model

| member | source | states |
|---|---|---|
| CsrfToken.MatchAt | parsing/parse.py:43 | the engine's attempt at one position: the marker, `\s*`, `=`, `\s*`, `"`, then the lazy capture up to the first `"`; its contract is stated by MatchAtIsToken, MatchAtIsSound and MatchAtIsComplete |
| CsrfToken.Search | parsing/parse.py:43 | `re.search` over the whole script, i.e. SearchFrom position 0; FirstScriptTokenIsFirstMatch and GetCsrfFormToken are stated with it |
| CsrfToken.SearchFrom | parsing/parse.py:43 | `re.search` from a position on; its contract is stated by SearchFromIsToken, SearchFromIsLeftmost and SearchFromNoneIff |
| CsrfToken.FirstScriptToken | parsing/parse.py:42-46 | the token of the first matching script; its contract is stated by FirstScriptTokenIsFirstMatch |
| CsrfToken.MatchAtIsToken | parsing/parse.py:43 | a capture is non-empty, holds no newline and has no '"' after its first character |
| CsrfToken.MatchAtIsSound | parsing/parse.py:43 | every match the engine reports at a position is one the pattern admits there, for some split of the whitespace runs |
| CsrfToken.MatchAtIsComplete | parsing/parse.py:43 | every match the pattern admits at a position is the one the engine reports: giving back whitespace never helps and the lazy capture ends at the first '"' |
| CsrfToken.SearchFromIsToken | parsing/parse.py:43 | whatever `re.search` reports is a capture of the pattern |
| CsrfToken.SearchFromIsLeftmost | parsing/parse.py:43 | `re.search` reports the match at the leftmost position that has one |
| CsrfToken.SearchFromNoneIff | parsing/parse.py:43-44 | `re.search` finds nothing exactly when no position matches |
| CsrfToken.FirstScriptTokenIsFirstMatch | parsing/parse.py:42-46 | the token comes from the first script, in document order, where the pattern matches; there is none exactly when no script matches |
| CsrfToken.GetCsrfFormToken | parsing/parse.py:38-51 | the loop with break returns the first script's capture, which is a token; it fails with TokenNotFound exactly when no script matches |
| Pagination.CountOfPost | parsing/parse.py:59-77 | the count of the k-th POST: 20 at first, 40 more each time round; GetAllVacanciesOnPage's contract is stated with it |
| Pagination.Fragments | parsing/parse.py:71-77 | the fragments kept are the `html` of the first n answers, in request order |
| Pagination.PostsSent | parsing/parse.py:66-79 | the loop sends POSTs through the first answer with `last` and no further, or uses every answer when none has it |
| Pagination.GetAllVacanciesOnPage | parsing/parse.py:54-79 | the number of POSTs is PostsSent; the k-th POST (from 0) carries the cookie, the form token and count 20 + 40k; no POST before the last sees `last`; success exactly when some answer has `last`, and then one fragment per POST in request order, the last answer's included; otherwise NoFinalPage after every answer is used |
| Pagination.GetSearchPageAllVacanciesSoup | parsing/parse.py:82-94 | a missing csrftoken cookie or no form token fails before any POST; otherwise the POSTs carry the cookie value and the first script's token, and success gives the search page followed by the fragments of the POSTs |
| VacancyLinks.PageAnchors | parsing/parse.py:174 | the `a.vt` anchors of a page followed by its `\"vt\"` anchors |
| VacancyLinks.AllAnchors | parsing/parse.py:173-176 | the anchors of all pages, page after page, which the nested loop is proved against; its contract is stated by AllAnchorsAppend and AllAnchorsCount |
| VacancyLinks.AllAnchorsAppend | parsing/parse.py:173-174 | the anchors of consecutive runs of pages are concatenated in page order |
| VacancyLinks.AllAnchorsCount | parsing/parse.py:169-177 | one entry per matched anchor over all pages |
| VacancyLinks.ExtractVacanciesDetailedPageUrl | parsing/parse.py:169-177 | success exactly when every anchor has an href; then URL k is the stripped href of anchor k, page after page and `a.vt` before `\"vt\"`, duplicates kept; otherwise MissingHref |
| Text.Contains | parsing/parse.py:103 | Python's `needle in hay` on strings: the needle occurs at some position of the hay |
| Text.Lower | parsing/parse.py:103 | `text.lower()` keeps the length and lowers each character on its own |
| Text.Strip | parsing/parse.py:137 | `str.strip()`; its contract is stated by StripIsTrim, StripEndsAreNotSpace and StripUnchanged |
| Text.StripStartIsSuffix | parsing/parse.py:175 | leading whitespace is cut off, the rest is a suffix of the string that starts with a non-space |
| Text.StripEndIsPrefix | parsing/parse.py:175 | trailing whitespace is cut off, the rest is a prefix of the string that ends with a non-space |
| Text.StripIsTrim | parsing/parse.py:175 | `strip()` leaves the middle part of the string, with only whitespace cut at either end |
| Text.StripEndsAreNotSpace | parsing/parse.py:175 | what `strip()` leaves neither begins nor ends with whitespace |
| Text.StripUnchanged | parsing/parse.py:137 | stripping a string without whitespace at its ends changes nothing |
| Text.RemoveChar | parsing/parse.py:137 | `s.replace(c, "")`: the result holds no c and is no longer than s; RemoveAbsentChar states that a string without c is left as it is |
| Text.DecimalValue | parsing/parse.py:137 | `int(...)` of an ASCII digit string: the last digit plus ten times the value of the rest; IntOfRun and SalaryNumbers are stated with it |
| Text.RemoveAbsentChar | parsing/parse.py:137 | removing a character that does not occur changes nothing |
| Text.DigitRuns | parsing/parse.py:138 | every run `re.findall(r"\d+", ...)` returns is a non-empty string of digits |
| Text.DigitRunsSplit | parsing/parse.py:138 | a non-digit separates runs: the runs of x, then those of y |
| Text.DigitRunsWhole | parsing/parse.py:138 | a non-empty string of digits is a single run |
| Text.DigitRunsNone | parsing/parse.py:138 | a string without digits has no run |
| VacancyPage.FindAll | parsing/parse.py:103 | `soup.find_all(string=lambda text: kw in text.lower())` (also at lines 108, 123, 148, 154): the text nodes whose lowered form contains the keyword, in document order; FoundIffMentions states when it is non-empty |
| VacancyPage.AnyFound | parsing/parse.py:102-110 | `any(...)` over a keyword list of a non-empty FindAll; IsRemoteIff and IsPartTimeIff state it |
| VacancyPage.IsRemote | parsing/parse.py:102-105 | the remote flag; its contract is stated by IsRemoteIff |
| VacancyPage.IsPartTime | parsing/parse.py:107-110 | the part-time flag; its contract is stated by IsPartTimeIff |
| VacancyPage.FoundIffMentions | parsing/parse.py:103 | `find_all` with the `in text.lower()` filter is truthy exactly when one single text node contains the keyword, lowered |
| VacancyPage.IsRemoteIff | parsing/parse.py:102-105 | is_remote holds exactly when some lowered text node contains "віддален" or "remote" |
| VacancyPage.IsPartTimeIff | parsing/parse.py:107-110 | is_part_time holds exactly when some lowered text node contains "part time", "part-time" or "погодинно" |
| VacancyPage.SplitKeywordNotFound | parsing/parse.py:102-105 | a keyword split over two text nodes is not found |
| VacancyPage.Canonical | parsing/parse.py:126-130 | the synonym collapse; its contract is stated by CanonicalLevels and CanonicalIsLabel |
| VacancyPage.CanonicalLevels | parsing/parse.py:126-130 | Trainee and Стажер collapse to Trainee; Tech Lead, Techlead and Teamlead to Tech Lead; the rest stay |
| VacancyPage.CanonicalIsLabel | parsing/parse.py:112-130 | every level collapses to a non-empty experience label |
| VacancyPage.FirstMentioned | parsing/parse.py:113-125 | the index found is the first level from i on that the page mentions; None when it mentions none |
| VacancyPage.ExperienceOf | parsing/parse.py:112-130 | the experience is one of "", Trainee, Junior, Middle, Senior, Tech Lead |
| VacancyPage.ExperienceOfIsFirstMentioned | parsing/parse.py:112-130 | the experience is "" exactly when no level is mentioned, and otherwise the label of the first level in list order that is mentioned |
| VacancyPage.ScanExperience | parsing/parse.py:112-130 | the for loop with break and the synonym collapse compute that experience |
| VacancyPage.ExperienceIgnoresNodeOrder | parsing/parse.py:112-125 | pages with the same set of text nodes, in any order and repetition, get the same experience |
| VacancyPage.SeniorAndMiddleIsMiddle | parsing/parse.py:112-125 | a page mentioning Middle and Senior and no earlier level is Middle |
| VacancyPage.IntOfRun | parsing/parse.py:137 | `int(s.replace(",", "").strip())` of a digit run is its decimal value |
| VacancyPage.SalaryNumbers | parsing/parse.py:135-139 | one number per digit run, its decimal value, in text order |
| VacancyPage.SalaryOf | parsing/parse.py:132-143 | the salary bounds; its contract is stated by SalaryOfSpec and SalaryOfTwoRuns |
| VacancyPage.SalaryOfSpec | parsing/parse.py:132-143 | no salary node: both unset; two runs: (first, second); one run: both that value; otherwise both unset |
| VacancyPage.SalaryOfTwoRuns | parsing/parse.py:135-141 | two digit strings joined by one non-digit give min the first and max the second |
| VacancyPage.ThousandsSeparatorSplitsNumber | parsing/parse.py:136-141 | "x,y" gives min x and max y: the comma removal never sees a comma |
| VacancyPage.ThirtyThousandReadsAsThirtyAndZero | parsing/parse.py:136-141 | "30,000" gives min 30 and max 0 |
| VacancyPage.SalaryBoundsNotOrdered | parsing/parse.py:140-141 | the bounds are not reordered: "x-y" with x > y gives min above max |
| Sequences.Filter | parsing/parse.py:145-155 | a list comprehension with an `if` clause: no longer than its input, every kept element satisfies the condition and comes from the input; FilterIsSubsequence keeps the order and FilterCount the exact count of every kept value |
| Sequences.FilterIsSubsequence | parsing/parse.py:145-155 | the comprehension keeps its kept elements in input order |
| Sequences.FilterCount | parsing/parse.py:145-155 | every value the condition accepts keeps all its occurrences, and no other value is kept |
| Sequences.FilterEmpty | parsing/parse.py:145-155 | the comprehension is empty exactly when no element satisfies the condition |
| VacancyPage.MatchVocabulary | parsing/parse.py:145-155 | the technology and tag list comprehensions; its contract is stated by MatchVocabularySpec |
| VacancyPage.MatchVocabularySpec | parsing/parse.py:145-155 | the matched entries are a subsequence of the vocabulary; each entry occurs as often as the vocabulary lists it when the page mentions it and not at all otherwise; every match is a mentioned vocabulary entry |
| VacancyPage.ListedTwiceReportedTwice | parsing/parse.py:145-149 | an entry the vocabulary lists twice is reported twice by a page that mentions it |
| VacancyPage.FlaskReportedTwice | parsing/parse.py:145-149 | a page mentioning flask lists "Flask" twice among its technologies |
| VacancyPage.VacancyOf | parsing/parse.py:157-166 | the record built from the page; its contract is stated by VacancyOfWellFormed and ParseSingleVacancy |
| VacancyPage.ParseSingleVacancy | parsing/parse.py:97-166 | no `.b-vacancy` element fails with MissingVacancyBlock; otherwise the record built from the flags, experience, salary, technologies and tags |
| VacancyPage.VacancyOfWellFormed | parsing/parse.py:97-166 | every record keeps its URL, has an experience label, technologies and tags drawn from their vocabularies in order, and both salary bounds set or both unset |
| Config.FlaskListedTwice | config.py:16-33 | the technology vocabulary lists "Flask" exactly twice |
| CsvOutput.Row | parsing/parse.py:197-209 | one CSV row of a record; its contract is stated by RowFollowsHeader and RowRoundTrip |
| CsvOutput.RowFollowsHeader | parsing/parse.py:185-209 | the header is url, experience, salary_max, salary_min, is_remote, is_part_time, technologies, tags, and each cell of a row holds the attribute its column names |
| CsvOutput.RowRoundTrip | parsing/parse.py:197-209 | a row reads back as its record: no field is lost or swapped |
| CsvOutput.WriteToCsv | parsing/parse.py:180-209 | the header row first, then one row per record in input order |
| Pipeline.GetAllVacancies | parsing/parse.py:212-217 | success exactly when every URL's page has a `.b-vacancy` element; then one record per URL, in URL order; otherwise MissingVacancyBlock |
| Pipeline.Scrape | parsing/parse.py:220-227 | the first failing step decides the error: no csrftoken cookie, no form token, no `last` answer, an anchor without href, then a URL without `.b-vacancy`; once the listing is read and every anchor has an href, the URLs are the stripped hrefs of the search page and the fragments through the first `last` answer, and the run succeeds exactly when every URL's page has `.b-vacancy`; the rows are then the header and one row per URL, in order, from that URL's page |

## Left out

- HTTP through `requests` and `aiohttp`, cookies, headers and JSON decoding (parsing/parse.py:17-35, 62-75, 84-88): the search page is a parsed value, its cookies a map, the load-more endpoint a finite sequence of answers, and a detail-page fetch a function `fetch` from URL to the optional `.b-vacancy` element. Network failures are not modelled.
- BeautifulSoup and its CSS selectors: the serialised script strings, the `a.vt` and `\"vt\"` anchors with their attributes, the text nodes and the `.salary` text are given inputs.
- `asyncio.gather` and the `tqdm` progress bar: only the URL order of the result is kept.
- CSV quoting and escaping, the output path under `..`, and Python's text rendering of lists, booleans and `None`: a row is a sequence of typed cells.
- Full Unicode `str.lower` (including mappings that change length) and Unicode `\d`: lowering maps ASCII A–Z and the Russian/Ukrainian capitals U+0400–U+042F and U+0490 and leaves every other character as it is, so capitals such as Ғ, Қ, Ү, Ӏ or À are not lowered; digits are ASCII.
- Pagination.GetAllVacanciesOnPage: an endpoint that never answers `last` makes the source loop forever; the model stops after the finite answer sequence with NoFinalPage.
- Pipeline.GetAllVacancies: takes the record parser as the parameter `parse`; the program's parser is VacancyPage.VacancyOf, which ParseSingleVacancy is proved to compute.
- Pipeline.Scrape: takes the record parser as the parameter `parse` as well, so its row contract holds for VacancyPage.VacancyOf in particular.
- A `<script>` is searched as `str(script)`; how BeautifulSoup serialises an element (attribute quoting and order, entities) is not modelled, the serialised strings are inputs.
- Request headers, URLs and the output file name in config.py are static configuration without behaviour.
