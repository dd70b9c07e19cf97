/**
 * `compareCrawledContent(crawledContents)`: one result per crawled page, in
 * order. A page without content gets a fixed error; every other page is run
 * through cross-entry detection. The detector is a parameter (the stored
 * entries it reads are fixed for the batch).
 */
module CrawlBatch {
  import opened CrossEntry

  datatype Option<T> = None | Some(value: T)

  /** A crawler result: `content` is absent when the page could not be
      fetched, and `error` is the crawler's own message. */
  datatype CrawledPage = CrawledPage(url: string, content: Option<string>, error: Option<string>)

  /** One entry of the returned array. */
  datatype CrawlResult<I> =
    | CrawlError(url: string, error: string)
    | CrawlReport(url: string, duplicates: Option<Detection<I>>)

  const NoContentCrawled: string := "No content crawled"

  /** `content` is truthy: present and not the empty string. */
  predicate HasContent(page: CrawledPage) {
    page.content.Some? && page.content.value != ""
  }

  /** The texts detection is run on, in page order. */
  function ContentsOf(pages: seq<CrawledPage>): seq<string> {
    if |pages| == 0 then []
    else
      var last := pages[|pages| - 1];
      ContentsOf(pages[..|pages| - 1]) + (if HasContent(last) then [last.content.value] else [])
  }

  /** The `duplicates` property of the detector's return value. The detector
      returns `internalDuplicates` and `externalDuplicates` only, so the read
      yields `undefined`. */
  function DuplicatesProperty<I>(d: Detection<I>): Option<Detection<I>> {
    None
  }

  /** The shape of the result for the pages that lack content. */
  predicate ErrorsWhereEmpty<I>(pages: seq<CrawledPage>, results: seq<CrawlResult<I>>)
    requires |results| == |pages|
  {
    forall k :: 0 <= k < |pages| ==>
      && results[k].url == pages[k].url
      && (results[k].CrawlError? <==> !HasContent(pages[k]))
      && (results[k].CrawlError? ==> results[k].error == NoContentCrawled)
  }

  /** `compareCrawledContent` as written: the reports carry the missing
      `duplicates` property. `inspected` is not part of the source's result:
      the model builds it beside each `detect` call, as the list of texts
      passed to it, so that the contract can say which pages were
      inspected; the call itself records nothing. */
  method CompareCrawledContent<I>(crawledContents: seq<CrawledPage>, detect: string -> Detection<I>)
    returns (results: seq<CrawlResult<I>>, inspected: seq<string>)
    ensures |results| == |crawledContents| && ErrorsWhereEmpty(crawledContents, results)
    ensures forall k :: 0 <= k < |results| && results[k].CrawlReport? ==> results[k].duplicates == None
    ensures inspected == ContentsOf(crawledContents)
  {
    results, inspected := [], [];
    for k := 0 to |crawledContents|
      invariant |results| == k && ErrorsWhereEmpty(crawledContents[..k], results)
      invariant forall m :: 0 <= m < k && results[m].CrawlReport? ==> results[m].duplicates == None
      invariant inspected == ContentsOf(crawledContents[..k])
    {
      var page := crawledContents[k];
      assert crawledContents[..k + 1][..k] == crawledContents[..k];
      if !HasContent(page) {
        results := results + [CrawlError(page.url, NoContentCrawled)];
        continue;
      }
      var detection := detect(page.content.value);
      inspected := inspected + [page.content.value];
      results := results + [CrawlReport(page.url, DuplicatesProperty(detection))];
    }
    assert crawledContents[..|crawledContents|] == crawledContents;
  }

  /** `compareCrawledContent` as evidently intended: each report carries the
      detector's result for the page. `inspected` is built beside each
      `detect` call as for `CompareCrawledContent`. */
  method CompareCrawledContentIntended<I>(crawledContents: seq<CrawledPage>, detect: string -> Detection<I>)
    returns (results: seq<CrawlResult<I>>, inspected: seq<string>)
    ensures |results| == |crawledContents| && ErrorsWhereEmpty(crawledContents, results)
    ensures forall k :: 0 <= k < |results| && results[k].CrawlReport? ==>
      HasContent(crawledContents[k]) && results[k].duplicates == Some(detect(crawledContents[k].content.value))
    ensures inspected == ContentsOf(crawledContents)
  {
    results, inspected := [], [];
    for k := 0 to |crawledContents|
      invariant |results| == k && ErrorsWhereEmpty(crawledContents[..k], results)
      invariant forall m :: 0 <= m < k && results[m].CrawlReport? ==>
        HasContent(crawledContents[m]) && results[m].duplicates == Some(detect(crawledContents[m].content.value))
      invariant inspected == ContentsOf(crawledContents[..k])
    {
      var page := crawledContents[k];
      assert crawledContents[..k + 1][..k] == crawledContents[..k];
      if !HasContent(page) {
        results := results + [CrawlError(page.url, NoContentCrawled)];
        continue;
      }
      var detection := detect(page.content.value);
      inspected := inspected + [page.content.value];
      results := results + [CrawlReport(page.url, Some(detection))];
    }
    assert crawledContents[..|crawledContents|] == crawledContents;
  }

  /** Detection only ever sees non-empty text, and sees each page with
      content exactly once, in order. */
  lemma {:induction false} ContentsOfNonEmpty(pages: seq<CrawledPage>)
    ensures forall k :: 0 <= k < |ContentsOf(pages)| ==> ContentsOf(pages)[k] != ""
    ensures |ContentsOf(pages)| <= |pages|
  {
    if |pages| > 0 {
      ContentsOfNonEmpty(pages[..|pages| - 1]);
    }
  }

  /** In a two-page example, the page whose fetch failed is not among the
      texts given to detection. */
  lemma FailedFetchNotInspected()
    ensures var pages := [CrawledPage("a", Some("hello"), None), CrawledPage("b", None, Some("timeout"))];
      ContentsOf(pages) == ["hello"]
  {
    var pages := [CrawledPage("a", Some("hello"), None), CrawledPage("b", None, Some("timeout"))];
    assert pages[..1][..0] == [];
    assert pages[..1] == [pages[0]];
  }
}
