/** The bounded same-host breadth-first crawl of `fetch_all_texts` in app.py.
    The network is not modelled: the visible text of a page, the `href`s its
    links carry, `urljoin` and `urlparse(...).netloc` are parameters. */
module Crawl {
  import opened Text

  /** At most this many characters of a page's text are kept. */
  const TextLimit: nat := 5000
  /** Page texts are joined with a blank line. */
  const PageSeparator: string := "\n\n"

  /** `text[:5000]`. */
  function Truncate(s: string): (r: string)
    ensures |r| <= TextLimit
    ensures r <= s
    ensures |s| <= TextLimit ==> r == s
    ensures |s| > TextLimit ==> |r| == TextLimit
  {
    if |s| <= TextLimit then s else s[..TextLimit]
  }

  /** The texts collected while visiting `pages` in turn: each non-empty page
      text, truncated, in visit order. */
  function PageTexts(pages: seq<string>, pageText: string -> string): (r: seq<string>)
    ensures |r| <= |pages|
    ensures forall k :: 0 <= k < |r| ==> 0 < |r[k]| <= TextLimit
  {
    if |pages| == 0 then []
    else
      var init := PageTexts(pages[..|pages| - 1], pageText);
      var text := pageText(pages[|pages| - 1]);
      if text == "" then init else init + [Truncate(text)]
  }

  /** A text is collected for a page exactly when the page has text, and the
      collected texts are those prefixes in visit order. */
  lemma {:induction false} PageTextsMeaning(pages: seq<string>, pageText: string -> string)
    ensures PageTexts(pages, pageText) == TruncatedTexts(Nonempty(pages, pageText), pageText)
  {
    if |pages| > 0 {
      var init := pages[..|pages| - 1];
      var last := pages[|pages| - 1];
      PageTextsMeaning(init, pageText);
      assert pages == init + [last];
      NonemptySnoc(init, last, pageText);
      var ne := Nonempty(init, pageText);
      if pageText(last) != "" {
        assert TruncatedTexts(ne + [last], pageText) == TruncatedTexts(ne, pageText) + [Truncate(pageText(last))];
      }
    }
  }

  /** The pages whose text is not empty, in order. */
  function Nonempty(pages: seq<string>, pageText: string -> string): (r: seq<string>)
    ensures forall u :: u in r <==> u in pages && pageText(u) != ""
  {
    if |pages| == 0 then []
    else (if pageText(pages[0]) != "" then [pages[0]] else []) + Nonempty(pages[1..], pageText)
  }

  lemma {:induction false} NonemptySnoc(pages: seq<string>, u: string, pageText: string -> string)
    ensures Nonempty(pages + [u], pageText)
         == Nonempty(pages, pageText) + (if pageText(u) != "" then [u] else [])
  {
    if |pages| == 0 {
      assert [u][1..] == [];
    } else {
      assert (pages + [u])[1..] == pages[1..] + [u];
      NonemptySnoc(pages[1..], u, pageText);
    }
  }

  function TruncatedTexts(pages: seq<string>, pageText: string -> string): (r: seq<string>)
    ensures |r| == |pages|
  {
    seq(|pages|, k requires 0 <= k < |pages| => Truncate(pageText(pages[k])))
  }

  // ---------------------------------------------------------------------------
  // The discovery order

  /** Offering one `href` to the queue `q`: it is resolved against the seed
      URL, and appended when it is on the seed's host and not in `q` yet. */
  function Offer(q: seq<string>, base: string, href: string,
                 urlJoin: (string, string) -> string, netloc: string -> string): seq<string>
  {
    var u := urlJoin(base, href);
    if netloc(u) == netloc(base) && u !in q then q + [u] else q
  }

  /** Offering the `href`s of one page, in document order. The queue only
      grows; it stays free of duplicates and on the seed's host; every offered
      same-host URL ends up in it; and everything new came from an `href`. */
  function OfferAll(q: seq<string>, base: string, hrefs: seq<string>,
                    urlJoin: (string, string) -> string, netloc: string -> string): (r: seq<string>)
    ensures q <= r
    ensures NoDup(q) ==> NoDup(r)
    ensures (forall u :: u in q ==> netloc(u) == netloc(base)) ==> forall u :: u in r ==> netloc(u) == netloc(base)
    ensures forall h :: h in hrefs && netloc(urlJoin(base, h)) == netloc(base) ==> urlJoin(base, h) in r
    ensures forall k :: |q| <= k < |r| ==> exists h :: h in hrefs && r[k] == urlJoin(base, h)
    decreases |hrefs|
  {
    if |hrefs| == 0 then q
    else
      var init := hrefs[..|hrefs| - 1];
      var h := hrefs[|hrefs| - 1];
      assert forall x :: x in hrefs <==> x in init || x == h by {
        assert hrefs == init + [h];
      }
      var p := OfferAll(q, base, init, urlJoin, netloc);
      Offer(p, base, h, urlJoin, netloc)
  }

  /** The URLs in the order the crawl discovers them once the pages `pages`
      have been fetched in turn: the seed, then each page's new links. */
  function Discovered(base: string, pages: seq<string>, pageLinks: string -> seq<string>,
                      urlJoin: (string, string) -> string, netloc: string -> string): (r: seq<string>)
    ensures |r| >= 1 && r[0] == base
    ensures NoDup(r)
    ensures forall u :: u in r ==> netloc(u) == netloc(base)
  {
    if |pages| == 0 then [base]
    else
      var d := Discovered(base, pages[..|pages| - 1], pageLinks, urlJoin, netloc);
      OfferAll(d, base, pageLinks(pages[|pages| - 1]), urlJoin, netloc)
  }

  /** Fetching more pages only appends to the discovery order. */
  lemma {:induction false} DiscoveredGrows(base: string, pages: seq<string>, n: nat, pageLinks: string -> seq<string>,
                                           urlJoin: (string, string) -> string, netloc: string -> string)
    requires n <= |pages|
    ensures Discovered(base, pages[..n], pageLinks, urlJoin, netloc) <= Discovered(base, pages, pageLinks, urlJoin, netloc)
    decreases |pages| - n
  {
    if n < |pages| {
      var init := pages[..|pages| - 1];
      assert init[..n] == pages[..n];
      DiscoveredGrows(base, init, n, pageLinks, urlJoin, netloc);
      assert pages[..|pages|] == pages;
    } else {
      assert pages[..n] == pages;
    }
  }

  /** Every same-host link of a fetched page is discovered, and every URL but
      the seed was found as a link of a page fetched before it. */
  lemma {:induction false} DiscoveredMeaning(base: string, pages: seq<string>, pageLinks: string -> seq<string>,
                                             urlJoin: (string, string) -> string, netloc: string -> string)
    ensures forall v, h :: v in pages && h in pageLinks(v) && netloc(urlJoin(base, h)) == netloc(base) ==>
      urlJoin(base, h) in Discovered(base, pages, pageLinks, urlJoin, netloc)
    ensures forall k :: 1 <= k < |Discovered(base, pages, pageLinks, urlJoin, netloc)| ==>
      exists v, h :: v in pages && h in pageLinks(v) && Discovered(base, pages, pageLinks, urlJoin, netloc)[k] == urlJoin(base, h)
  {
    if |pages| > 0 {
      var init := pages[..|pages| - 1];
      var last := pages[|pages| - 1];
      DiscoveredMeaning(base, init, pageLinks, urlJoin, netloc);
      assert forall v :: v in pages <==> v in init || v == last by {
        assert pages == init + [last];
      }
      var di := Discovered(base, init, pageLinks, urlJoin, netloc);
      var d := Discovered(base, pages, pageLinks, urlJoin, netloc);
      forall k | 1 <= k < |d|
        ensures exists v, h :: v in pages && h in pageLinks(v) && d[k] == urlJoin(base, h)
      {
        if k < |di| {
          assert d[k] == di[k];
        } else {
          assert exists h :: h in pageLinks(last) && d[k] == urlJoin(base, h);
        }
      }
    } else {
      assert |Discovered(base, pages, pageLinks, urlJoin, netloc)| == 1;
    }
  }

  /** The page fetched `k`-th is the URL the discovery order of the pages
      fetched before it holds at place `k`: the queue is first-in first-out. */
  ghost predicate FetchedAt(base: string, pages: seq<string>, k: nat, pageLinks: string -> seq<string>,
                            urlJoin: (string, string) -> string, netloc: string -> string)
    requires k < |pages|
  {
    var d := Discovered(base, pages[..k], pageLinks, urlJoin, netloc);
    k < |d| && pages[k] == d[k]
  }

  ghost predicate FetchedInOrder(base: string, pages: seq<string>, pageLinks: string -> seq<string>,
                                 urlJoin: (string, string) -> string, netloc: string -> string)
  {
    forall k: nat :: k < |pages| ==> FetchedAt(base, pages, k, pageLinks, urlJoin, netloc)
  }

  /** In a first-in first-out crawl every page but the seed was found as a
      link of a page fetched before it. */
  lemma FoundBefore(base: string, pages: seq<string>, k: nat, pageLinks: string -> seq<string>,
                    urlJoin: (string, string) -> string, netloc: string -> string)
    requires 1 <= k < |pages|
    requires FetchedInOrder(base, pages, pageLinks, urlJoin, netloc)
    ensures exists v, h :: v in pages[..k] && h in pageLinks(v) && pages[k] == urlJoin(base, h)
  {
    assert FetchedAt(base, pages, k, pageLinks, urlJoin, netloc);
    var d := Discovered(base, pages[..k], pageLinks, urlJoin, netloc);
    DiscoveredMeaning(base, pages[..k], pageLinks, urlJoin, netloc);
    assert 1 <= k < |d|;
    assert pages[k] == d[k];
  }

  // ---------------------------------------------------------------------------
  // The crawl

  /** The inner loop of the crawl over one page's `href`s: each resolved URL
      on the seed's host that is neither visited nor queued joins the queue.
      Visited and queued URLs together grow exactly as `OfferAll` says. */
  method EnqueueLinks(baseUrl: string, visited: set<string>, visitOrder: seq<string>, toVisit: seq<string>,
                      hrefs: seq<string>, urlJoin: (string, string) -> string, netloc: string -> string)
    returns (queue: seq<string>)
    requires forall u :: u in visited <==> u in visitOrder
    ensures visitOrder + queue == OfferAll(visitOrder + toVisit, baseUrl, hrefs, urlJoin, netloc)
  {
    queue := toVisit;
    var domain := netloc(baseUrl);
    var j := 0;
    while j < |hrefs|
      invariant j <= |hrefs|
      invariant visitOrder + queue == OfferAll(visitOrder + toVisit, baseUrl, hrefs[..j], urlJoin, netloc)
    {
      var newUrl := urlJoin(baseUrl, hrefs[j]);
      assert hrefs[..j + 1][..j] == hrefs[..j];
      if netloc(newUrl) == domain {
        if newUrl !in visited && newUrl !in queue {
          queue := queue + [newUrl];
        }
      }
      j := j + 1;
    }
    assert hrefs[..j] == hrefs;
  }

  /** The crawl's state between two iterations: the visited set, the pages
      in the order they were fetched, the queue and the collected texts. The
      fetched pages and the queue together are the discovery order so far. */
  ghost predicate CrawlInvariant(baseUrl: string, visited: set<string>, visitOrder: seq<string>,
                                 toVisit: seq<string>, texts: seq<string>,
                                 pageText: string -> string, pageLinks: string -> seq<string>,
                                 urlJoin: (string, string) -> string, netloc: string -> string)
  {
    && (forall u :: u in visited <==> u in visitOrder)
    && |visited| == |visitOrder|
    && visitOrder + toVisit == Discovered(baseUrl, visitOrder, pageLinks, urlJoin, netloc)
    && texts == PageTexts(visitOrder, pageText)
    && FetchedInOrder(baseUrl, visitOrder, pageLinks, urlJoin, netloc)
  }

  /** One iteration of the crawl loop: the head of the queue is popped and,
      as it is never a visited page, fetched: its text is collected and its
      links are queued. */
  method VisitNext(baseUrl: string, visited: set<string>, visitOrder: seq<string>,
                   toVisit: seq<string>, texts: seq<string>,
                   pageText: string -> string, pageLinks: string -> seq<string>,
                   urlJoin: (string, string) -> string, netloc: string -> string)
    returns (visited': set<string>, visitOrder': seq<string>, toVisit': seq<string>, texts': seq<string>)
    requires |toVisit| > 0
    requires CrawlInvariant(baseUrl, visited, visitOrder, toVisit, texts, pageText, pageLinks, urlJoin, netloc)
    ensures CrawlInvariant(baseUrl, visited', visitOrder', toVisit', texts', pageText, pageLinks, urlJoin, netloc)
    ensures visitOrder' == visitOrder + [toVisit[0]]
  {
    ghost var before := visitOrder + toVisit;
    var current := toVisit[0];
    visited', visitOrder', toVisit', texts' := visited, visitOrder, toVisit[1..], texts;
    assert current !in visitOrder by {
      assert before == visitOrder + [current] + toVisit';
      assert before[|visitOrder|] == current;
      assert forall k :: 0 <= k < |visitOrder| ==> before[k] == visitOrder[k];
    }
    if current !in visited {
      visited' := visited + {current};
      visitOrder' := visitOrder + [current];
      assert visitOrder'[..|visitOrder'| - 1] + [current] + toVisit' == before;
      var text := pageText(current);
      if text != "" {
        texts' := texts + [Truncate(text)];
      }
      toVisit' := EnqueueLinks(baseUrl, visited', visitOrder', toVisit', pageLinks(current), urlJoin, netloc);
      forall k: nat | k < |visitOrder'|
        ensures FetchedAt(baseUrl, visitOrder', k, pageLinks, urlJoin, netloc)
      {
        if k < |visitOrder| {
          assert visitOrder'[..k] == visitOrder[..k];
          assert FetchedAt(baseUrl, visitOrder, k, pageLinks, urlJoin, netloc);
        } else {
          assert visitOrder'[..k] == visitOrder;
        }
      }
    }
  }

  /** `fetch_all_texts(base_url, max_pages)`. Besides the joined text it
      returns the URLs in the order they were fetched. At most `max_pages`
      pages are fetched, none twice, all on the seed's host; the queue is
      consumed first-in first-out, so the fetch order is a prefix of the
      discovery order; the crawl stops only at the cap or when no undiscovered
      link remains; and the result is the collected texts joined with a blank
      line. */
  method FetchAllTexts(baseUrl: string, maxPages: int,
                       pageText: string -> string, pageLinks: string -> seq<string>,
                       urlJoin: (string, string) -> string, netloc: string -> string)
    returns (result: string, visitOrder: seq<string>)
    ensures |visitOrder| <= (if maxPages < 0 then 0 else maxPages)
    ensures NoDup(visitOrder)
    ensures maxPages >= 1 ==> |visitOrder| >= 1 && visitOrder[0] == baseUrl
    ensures forall u :: u in visitOrder ==> netloc(u) == netloc(baseUrl)
    ensures visitOrder <= Discovered(baseUrl, visitOrder, pageLinks, urlJoin, netloc)
    ensures FetchedInOrder(baseUrl, visitOrder, pageLinks, urlJoin, netloc)
    ensures |visitOrder| >= maxPages || visitOrder == Discovered(baseUrl, visitOrder, pageLinks, urlJoin, netloc)
    ensures |visitOrder| < maxPages ==>
      forall v, h :: v in visitOrder && h in pageLinks(v) && netloc(urlJoin(baseUrl, h)) == netloc(baseUrl) ==>
        urlJoin(baseUrl, h) in visitOrder
    ensures result == Join(PageTexts(visitOrder, pageText), PageSeparator)
  {
    var visited: set<string> := {};
    var toVisit: seq<string> := [baseUrl];
    var texts: seq<string> := [];
    visitOrder := [];
    while |toVisit| > 0 && |visited| < maxPages
      invariant CrawlInvariant(baseUrl, visited, visitOrder, toVisit, texts, pageText, pageLinks, urlJoin, netloc)
      invariant |visitOrder| <= (if maxPages < 0 then 0 else maxPages)
      decreases maxPages - |visited|
    {
      visited, visitOrder, toVisit, texts := VisitNext(baseUrl, visited, visitOrder, toVisit, texts,
                                                       pageText, pageLinks, urlJoin, netloc);
    }
    ghost var d := Discovered(baseUrl, visitOrder, pageLinks, urlJoin, netloc);
    assert forall i :: 0 <= i < |visitOrder| ==> visitOrder[i] == d[i];
    DiscoveredMeaning(baseUrl, visitOrder, pageLinks, urlJoin, netloc);
    result := Join(texts, PageSeparator);
  }
}
