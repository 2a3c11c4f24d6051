/**
  The wiki's address and the way both discovery routines turn a link into
  an absolute URL.
*/
module WikiUrls {
  import opened Text

  const Base := "https://animalrestaurant.fandom.com"

  const ArticlePrefix := "/wiki/"

  /** The first piece of `s.split(sep)` has no `sep` in it, is a prefix of
      `s`, and ends where `s` ends or at the first `sep`. */
  lemma {:induction false} SplitHead(s: string, sep: char)
    ensures sep !in Split(s, sep)[0]
    ensures |Split(s, sep)[0]| <= |s| && s[..|Split(s, sep)[0]|] == Split(s, sep)[0]
    ensures |Split(s, sep)[0]| == |s| || s[|Split(s, sep)[0]|] == sep
  {
    if s != [] && s[0] != sep {
      SplitHead(s[1..], sep);
    }
  }

  /** `href.split("#")[0]`: the link without its fragment. */
  function BeforeHash(href: string): (r: string)
    ensures '#' !in r
    ensures |r| <= |href| && href[..|r|] == r
  {
    SplitHead(href, '#');
    Split(href, '#')[0]
  }

  /** Cutting the fragment keeps an article path an article path. */
  lemma BeforeHashArticle(href: string)
    requires StartsWith(href, ArticlePrefix)
    ensures StartsWith(BeforeHash(href), ArticlePrefix)
  {
    SplitHead(href, '#');
    var r := BeforeHash(href);
    assert r[..|ArticlePrefix|] == href[..|ArticlePrefix|];
  }

  /** `urljoin(BASE, href.split("#")[0])` for an `href` that starts with
      `/wiki/`: the site address followed by the path. */
  function FullUrl(href: string): string {
    Base + BeforeHash(href)
  }

  /** The two list pages that are never customers. */
  predicate IsHub(url: string) {
    EndsWith(url, "/wiki/Regular_Customers") || EndsWith(url, "/wiki/Customers")
  }

  /** What every discovered address looks like: the site address, then an
      article path with no `:` and no fragment, and not one of the hubs. */
  predicate IsArticleUrl(u: string) {
    && StartsWith(u, Base + ArticlePrefix)
    && '#' !in u[|Base|..] && ':' !in u[|Base|..]
    && !IsHub(u)
  }

  /** A kept article link gives an article address. */
  lemma FullUrlShape(href: string)
    requires StartsWith(href, ArticlePrefix) && ':' !in href && !IsHub(FullUrl(href))
    ensures IsArticleUrl(FullUrl(href))
  {
    BeforeHashArticle(href);
    var r := BeforeHash(href);
    var u := FullUrl(href);
    assert u[|Base|..] == r;
    assert u[..|Base + ArticlePrefix|] == Base + r[..|ArticlePrefix|];
    forall i | 0 <= i < |r|
      ensures r[i] != ':'
    {
      assert r[i] == href[i];
    }
  }
}
