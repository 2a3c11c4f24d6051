/**
  The older discovery routine (scrape.py): every article link inside a table
  of the Regular Customers page, without its fragment, made absolute, the
  two hub pages left out, sorted and without repeats.
*/
module Legacy {
  import opened Wrappers
  import opened Text
  import opened Order
  import opened Page
  import opened WikiUrls

  /** `_is_wiki_article` (scrape.py): a non-empty link into the article
      namespace, with no `:` (which marks the special namespaces). */
  predicate IsWikiArticle(href: string) {
    href != [] && StartsWith(href, ArticlePrefix) && ':' !in href
  }

  /** The emptiness test adds nothing to the prefix test. */
  lemma WikiArticleIff(href: string)
    ensures IsWikiArticle(href) <==> StartsWith(href, ArticlePrefix) && ':' !in href
  {
    if StartsWith(href, ArticlePrefix) {
      assert href[0] == '/';
    }
  }

  /** Link `l` is kept, and `u` is its address. */
  predicate Yields(l: Link, u: string) {
    IsWikiArticle(l.href) && u == FullUrl(l.href) && !IsHub(u)
  }

  /** The address a table link contributes, when it is kept. */
  function TableTarget(l: Link): (r: Option<string>)
    ensures forall u :: r == Some(u) <==> Yields(l, u)
  {
    if IsWikiArticle(l.href) && !IsHub(FullUrl(l.href)) then Some(FullUrl(l.href)) else None
  }

  /** What each table link contributes, in order. */
  function TableTargets(links: seq<Link>): (r: seq<Option<string>>)
    ensures |r| == |links|
  {
    seq(|links|, i requires 0 <= i < |links| => TableTarget(links[i]))
  }

  /** The addresses the kept links among `links` give. */
  function TableUrls(links: seq<Link>): set<string> {
    Collect(TableTargets(links))
  }

  /** An address is found exactly when some link yields it. */
  lemma TableUrlsIff(links: seq<Link>, u: string)
    ensures u in TableUrls(links) <==> exists k :: 0 <= k < |links| && Yields(links[k], u)
  {
    var t := TableTargets(links);
    CollectIff(t, u);
    if Some(u) in t {
      var k :| 0 <= k < |t| && t[k] == Some(u);
      assert Yields(links[k], u);
    }
    if exists k :: 0 <= k < |links| && Yields(links[k], u) {
      var k :| 0 <= k < |links| && Yields(links[k], u);
      assert t[k] == Some(u);
    }
  }

  /** `discover_regular_customer_urls` (scrape.py), after the page fetch:
      `[]` without a content block; otherwise the addresses of the kept
      table links, sorted and each once. */
  method DiscoverTableLinks(content: Option<Content>) returns (r: seq<string>)
    ensures content.None? ==> r == []
    ensures StrictlySorted(r)
    ensures content.Some? ==> forall u :: u in r <==> u in TableUrls(content.value.tableLinks)
  {
    if content.None? {
      return [];
    }
    var links := content.value.tableLinks;
    ghost var targets := TableTargets(links);
    var urls: set<string> := {};
    var i := 0;
    while i < |links|
      invariant 0 <= i <= |links|
      invariant urls == Collect(targets[..i])
    {
      CollectStep(targets, i);
      var href := links[i].href;
      if IsWikiArticle(href) {
        var absu := FullUrl(href);
        if !IsHub(absu) {
          urls := urls + {absu};
        }
      }
      i := i + 1;
    }
    assert targets[..i] == targets;
    r := SortedList(urls);
  }

  /** Every address found is an article address of the wiki. */
  lemma YieldsArticle(l: Link, u: string)
    requires Yields(l, u)
    ensures IsArticleUrl(u)
  {
    FullUrlShape(l.href);
  }

  /** Every address found is an article address of the wiki: never a hub,
      never with a fragment. */
  lemma TableUrlsArticle(links: seq<Link>, u: string)
    requires u in TableUrls(links)
    ensures IsArticleUrl(u)
  {
    TableUrlsIff(links, u);
    var k :| 0 <= k < |links| && Yields(links[k], u);
    YieldsArticle(links[k], u);
  }
}
