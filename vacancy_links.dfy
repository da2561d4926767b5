/**
 * Collecting the detail-page URLs: for every page in order, the hrefs of its
 * `a.vt` anchors and then of its `\"vt\"` anchors, each stripped of
 * surrounding whitespace, duplicates kept. An anchor without href is a KeyError.
 */
module VacancyLinks {
  import opened Wrappers
  import opened Text
  import opened Html

  /** `soup.select("a.vt") + soup.select('\\"vt\\"')` */
  function PageAnchors(soup: Soup): seq<Anchor> {
    soup.vtLinks + soup.quotedVtLinks
  }

  /** The anchors of all pages, page after page. */
  function AllAnchors(soups: seq<Soup>): (anchors: seq<Anchor>)
    decreases |soups|
  {
    if soups == [] then [] else AllAnchors(soups[..|soups| - 1]) + PageAnchors(soups[|soups| - 1])
  }

  /** The total number of matched anchors over all pages. */
  function AnchorCount(soups: seq<Soup>): nat
    decreases |soups|
  {
    if soups == [] then 0 else |soups[0].vtLinks| + |soups[0].quotedVtLinks| + AnchorCount(soups[1..])
  }

  /** Anchors of consecutive runs of pages are concatenated in page order. */
  lemma {:induction false} AllAnchorsAppend(xs: seq<Soup>, ys: seq<Soup>)
    ensures AllAnchors(xs + ys) == AllAnchors(xs) + AllAnchors(ys)
    decreases |ys|
  {
    if ys == [] {
      assert xs + ys == xs;
    } else {
      var zs := xs + ys;
      assert zs[..|zs| - 1] == xs + ys[..|ys| - 1];
      AllAnchorsAppend(xs, ys[..|ys| - 1]);
    }
  }

  /** One URL per matched anchor. */
  lemma {:induction false} AllAnchorsCount(soups: seq<Soup>)
    ensures |AllAnchors(soups)| == AnchorCount(soups)
    decreases |soups|
  {
    if soups != [] {
      AllAnchorsAppend([soups[0]], soups[1..]);
      assert [soups[0]] + soups[1..] == soups;
      assert AllAnchors([soups[0]]) == PageAnchors(soups[0]) by {
        assert [soups[0]][..0] == [];
      }
      AllAnchorsCount(soups[1..]);
    }
  }

  /** Every anchor carries an href attribute. */
  predicate AllHaveHref(anchors: seq<Anchor>) {
    forall k | 0 <= k < |anchors| :: "href" in anchors[k].attrs
  }

  /** urls lists, position by position, the stripped hrefs of anchors (all of which have one). */
  predicate StrippedHrefs(anchors: seq<Anchor>, urls: seq<string>) {
    |urls| == |anchors| &&
    forall k | 0 <= k < |anchors| :: "href" in anchors[k].attrs && urls[k] == Strip(anchors[k].attrs["href"])
  }

  /** The anchors of the first i + 1 pages are those of the first i, then page i's. */
  lemma AllAnchorsPrefixStep(soups: seq<Soup>, i: nat)
    requires i < |soups|
    ensures AllAnchors(soups[..i + 1]) == AllAnchors(soups[..i]) + PageAnchors(soups[i])
  {
    assert soups[..i + 1][..i] == soups[..i];
  }

  /** The j-th anchor of page i sits right after the anchors of the pages before it. */
  lemma AnchorOfPage(soups: seq<Soup>, i: nat, j: nat)
    requires i < |soups| && j < |PageAnchors(soups[i])|
    ensures |AllAnchors(soups[..i])| + j < |AllAnchors(soups)|
    ensures AllAnchors(soups)[|AllAnchors(soups[..i])| + j] == PageAnchors(soups[i])[j]
  {
    AllAnchorsPrefixStep(soups, i);
    AllAnchorsAppend(soups[..i + 1], soups[i + 1..]);
    assert soups[..i + 1] + soups[i + 1..] == soups;
  }

  /** Taking the next anchor of a page, which has an href, and its stripped href keeps the correspondence. */
  lemma StrippedHrefsStep(before: seq<Anchor>, anchors: seq<Anchor>, j: nat, urls: seq<string>)
    requires j < |anchors| && "href" in anchors[j].attrs
    requires StrippedHrefs(before + anchors[..j], urls)
    ensures StrippedHrefs(before + anchors[..j + 1], urls + [Strip(anchors[j].attrs["href"])])
  {
    assert before + anchors[..j + 1] == (before + anchors[..j]) + [anchors[j]];
  }

  /** extract_vacancies_detailed_page_url */
  method ExtractVacanciesDetailedPageUrl(vacancysSoup: seq<Soup>) returns (r: Result<seq<string>, Error>)
    ensures r.Success? <==> AllHaveHref(AllAnchors(vacancysSoup))
    ensures r.Success? ==> StrippedHrefs(AllAnchors(vacancysSoup), r.value)
    ensures r.Failure? ==> r.error == MissingHref
  {
    var urls: seq<string> := [];
    var i := 0;
    while i < |vacancysSoup|
      invariant 0 <= i <= |vacancysSoup|
      invariant StrippedHrefs(AllAnchors(vacancysSoup[..i]), urls)
    {
      var anchors := PageAnchors(vacancysSoup[i]);
      ghost var before := AllAnchors(vacancysSoup[..i]);
      AllAnchorsPrefixStep(vacancysSoup, i);
      var j := 0;
      while j < |anchors|
        invariant 0 <= j <= |anchors|
        invariant StrippedHrefs(before + anchors[..j], urls)
      {
        var vacancy := anchors[j];
        if "href" !in vacancy.attrs {
          AnchorOfPage(vacancysSoup, i, j);
          assert !AllHaveHref(AllAnchors(vacancysSoup));
          return Failure(MissingHref);
        }
        var href := Strip(vacancy.attrs["href"]);
        StrippedHrefsStep(before, anchors, j, urls);
        urls := urls + [href];
        j := j + 1;
      }
      assert anchors[..j] == anchors;
      i := i + 1;
    }
    assert vacancysSoup[..i] == vacancysSoup;
    return Success(urls);
  }
}
