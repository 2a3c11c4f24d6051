/**
  Discovery of the regular customers (scrape_regular_customers.py): the
  links listed under the "Nearby", "Village", "Town" and "City" headings of
  the Regular Customers page, turned into absolute addresses, sorted and
  each kept once.
*/
module Discovery {
  import opened Wrappers
  import opened Text
  import opened Order
  import opened Page
  import opened WikiUrls

  const Wanted: set<string> := {"nearby", "village", "town", "city"}

  /** How many siblings the walk from a heading looks at. */
  const MaxSiblings := 30

  /** How many wiki links a paragraph needs to count as a name list. */
  const MinParagraphLinks := 5

  /** An `<h2>`, `<h3>` or `<h4>`. */
  predicate IsSectionBreak(b: Block) {
    b.SectionHeading? && 2 <= b.level <= 4
  }

  /** The cleaned, lower-cased headline of a heading. */
  function SectionKey(b: Block): Option<string>
    requires b.SectionHeading?
  {
    var title := CleanText(b.headline);
    if title.None? then None else Some(Lower(Strip(title.value)))
  }

  predicate IsWantedHeading(b: Block) {
    IsSectionBreak(b) && SectionKey(b).Some? && SectionKey(b).value in Wanted
  }

  /** A link that `a[href^='/wiki/']` selects. */
  predicate IsWikiLink(l: Link) {
    StartsWith(l.href, ArticlePrefix)
  }

  /** The positions of the links that point into the wiki. */
  function WikiIndices(links: seq<Link>): (r: set<nat>)
    ensures forall k :: k in r ==> k < |links|
  {
    set k: nat | k < |links| && IsWikiLink(links[k])
  }

  /** `len(p.select("a[href^='/wiki/']"))`: how many links point into the
      wiki. */
  function WikiCount(links: seq<Link>): (r: nat)
    ensures r == |WikiIndices(links)| <= |links|
  {
    if links == [] then 0
    else
      var init := links[..|links| - 1];
      WikiIndicesStep(links);
      WikiCount(init) + (if IsWikiLink(links[|links| - 1]) then 1 else 0)
  }

  lemma WikiIndicesStep(links: seq<Link>)
    requires links != []
    ensures var last := |links| - 1;
      && WikiIndices(links) == WikiIndices(links[..last]) + (if IsWikiLink(links[last]) then {last} else {})
      && last !in WikiIndices(links[..last])
  {
    var last := |links| - 1;
    assert forall k :: 0 <= k < last ==> links[k] == links[..last][k];
  }

  /** No wiki link, no count. */
  lemma {:induction false} WikiCountZero(links: seq<Link>)
    ensures WikiCount(links) == 0 <==> forall k :: 0 <= k < |links| ==> !IsWikiLink(links[k])
  {
    if links != [] {
      var init := links[..|links| - 1];
      WikiCountZero(init);
      assert forall k :: 0 <= k < |init| ==> init[k] == links[k];
    }
  }

  /** Whether the walk takes links from a sibling: always from a list, and
      from a paragraph with at least five wiki links. */
  predicate Harvests(b: Block) {
    b.List? || (b.Paragraph? && WikiCount(b.links) >= MinParagraphLinks)
  }

  /** A link is kept when `a[href^='/wiki/']` selects it, unless its target
      has a `:`, is one of the hubs, or its text is blank or a section
      name. */
  predicate Keep(l: Link) {
    && IsWikiLink(l)
    && ':' !in l.href
    && !IsHub(FullUrl(l.href))
    && var text := CleanText(Some(l.text)); text.Some? && Lower(text.value) !in Wanted
  }

  /** The address a link contributes: its absolute address when it is
      kept. */
  function KeptUrl(l: Link): Option<string> {
    if Keep(l) then Some(FullUrl(l.href)) else None
  }

  /** What each link contributes, in order. */
  function Targets(links: seq<Link>): (r: seq<Option<string>>)
    ensures |r| == |links|
  {
    seq(|links|, i requires 0 <= i < |links| => KeptUrl(links[i]))
  }

  /** The addresses of the kept links. */
  function LinkUrls(links: seq<Link>): set<string> {
    Collect(Targets(links))
  }

  /** The addresses a sibling contributes. */
  function BlockUrls(b: Block): set<string> {
    if Harvests(b) then LinkUrls(b.links) else {}
  }

  /** The first section heading in `[j, min(limit, |blocks|))`, or that
      bound when there is none. */
  function ScanEnd(blocks: seq<Block>, j: nat, limit: nat): (e: nat)
    requires j <= |blocks| && j <= limit
    ensures j <= e <= |blocks| && e <= limit
    ensures forall k :: j <= k < e ==> !IsSectionBreak(blocks[k])
    ensures e == |blocks| || e == limit || IsSectionBreak(blocks[e])
    decreases |blocks| - j
  {
    if j == |blocks| || j == limit || IsSectionBreak(blocks[j]) then j
    else ScanEnd(blocks, j + 1, limit)
  }

  /** Where the walk from the heading at `h` ends: at the next section
      heading, at the end of the content, or after 30 siblings. */
  function WindowEnd(blocks: seq<Block>, h: nat): (e: nat)
    requires h < |blocks|
    ensures h < e <= |blocks| && e <= h + 1 + MaxSiblings
    ensures forall k :: h < k < e ==> !IsSectionBreak(blocks[k])
    ensures e == |blocks| || e == h + 1 + MaxSiblings || IsSectionBreak(blocks[e])
  {
    ScanEnd(blocks, h + 1, h + 1 + MaxSiblings)
  }

  /** The three properties of `ScanEnd` single it out. */
  lemma {:induction false} ScanEndIs(blocks: seq<Block>, j: nat, limit: nat, e: nat)
    requires j <= e <= |blocks| && e <= limit
    requires forall k :: j <= k < e ==> !IsSectionBreak(blocks[k])
    requires e == |blocks| || e == limit || IsSectionBreak(blocks[e])
    ensures ScanEnd(blocks, j, limit) == e
    decreases e - j
  {
    if j < e {
      ScanEndIs(blocks, j + 1, limit, e);
    }
  }

  /** What every child contributes, in order. */
  function BlockSets(blocks: seq<Block>): (r: seq<set<string>>)
    ensures |r| == |blocks|
  {
    seq(|blocks|, i requires 0 <= i < |blocks| => BlockUrls(blocks[i]))
  }

  /** The union of `sets[lo..hi]`. */
  function Union(sets: seq<set<string>>, lo: nat, hi: nat): set<string>
    requires lo <= hi <= |sets|
    decreases hi
  {
    if hi == lo then {} else Union(sets, lo, hi - 1) + sets[hi - 1]
  }

  lemma {:induction false} UnionIff(sets: seq<set<string>>, lo: nat, hi: nat, u: string)
    requires lo <= hi <= |sets|
    ensures u in Union(sets, lo, hi) <==> exists m :: lo <= m < hi && u in sets[m]
    decreases hi
  {
    if hi > lo {
      UnionIff(sets, lo, hi - 1, u);
    }
  }

  /** What the walk from the child at `h` collects: nothing unless it is a
      wanted heading, else the contributions of the siblings it reaches. */
  function SectionWindow(blocks: seq<Block>, h: nat): set<string>
    requires h < |blocks|
  {
    if IsWantedHeading(blocks[h]) then Union(BlockSets(blocks), h + 1, WindowEnd(blocks, h)) else {}
  }

  /** What the walk from every child collects, in order. */
  function Windows(blocks: seq<Block>): (r: seq<set<string>>)
    ensures |r| == |blocks|
  {
    seq(|blocks|, h requires 0 <= h < |blocks| => SectionWindow(blocks, h))
  }

  /** The addresses collected from the walks of the first `n` children. */
  function SectionUrls(blocks: seq<Block>, n: nat): set<string>
    requires n <= |blocks|
  {
    Union(Windows(blocks), 0, n)
  }

  /** The tests of the link loop: a link outside the wiki, with a `:` in its
      target, pointing at a hub, or whose text is blank or a section name is
      passed over; otherwise its absolute address is kept. */
  method KeptLink(l: Link) returns (r: Option<string>)
    ensures r == KeptUrl(l)
  {
    var href := l.href;
    if !StartsWith(href, ArticlePrefix) || ':' in href {
      return None;
    }
    var full := FullUrl(href);
    if IsHub(full) {
      return None;
    }
    var linkText := CleanText(Some(l.text));
    if linkText.None? || Lower(linkText.value) in Wanted {
      return None;
    }
    return Some(full);
  }

  /** The link loop under one sibling: add the address of every kept link
      (the selection of wiki links is the first test of the loop). */
  method AddKeptLinks(urls: set<string>, links: seq<Link>) returns (out: set<string>)
    ensures out == urls + LinkUrls(links)
  {
    out := urls;
    ghost var targets := Targets(links);
    var i := 0;
    while i < |links|
      invariant 0 <= i <= |links|
      invariant out == urls + Collect(targets[..i])
    {
      CollectStep(targets, i);
      var full := KeptLink(links[i]);
      if full.Some? {
        out := out + {full.value};
      }
      i := i + 1;
    }
    assert targets[..i] == targets;
  }

  /** One sibling of the walk: the links of a list, or of a paragraph with
      at least five wiki links. */
  method HarvestSibling(urls: set<string>, b: Block) returns (out: set<string>)
    ensures out == urls + BlockUrls(b)
  {
    out := urls;
    if b.List? {
      out := AddKeptLinks(out, b.links);
    }
    if b.Paragraph? {
      var linkCount := WikiCount(b.links);
      if linkCount >= MinParagraphLinks {
        out := AddKeptLinks(out, b.links);
      }
    }
  }

  /** The walk from the heading at `h` over at most 30 following siblings,
      up to the next section heading. */
  method WalkSection(blocks: seq<Block>, h: nat, urls: set<string>) returns (out: set<string>)
    requires h < |blocks|
    ensures out == urls + Union(BlockSets(blocks), h + 1, WindowEnd(blocks, h))
  {
    out := urls;
    ghost var sets := BlockSets(blocks);
    var sib := h;
    var steps := 0;
    while steps < MaxSiblings
      invariant sib == h + steps && sib < |blocks| && steps <= MaxSiblings
      invariant forall k :: h < k <= sib ==> !IsSectionBreak(blocks[k])
      invariant out == urls + Union(sets, h + 1, sib + 1)
    {
      var next := sib + 1;
      if next == |blocks| {
        break;
      }
      if IsSectionBreak(blocks[next]) {
        break;
      }
      sib := next;
      steps := steps + 1;
      out := HarvestSibling(out, blocks[sib]);
      assert sets[sib] == BlockUrls(blocks[sib]);
      assert Union(sets, h + 1, sib + 1) == Union(sets, h + 1, sib) + sets[sib];
    }
    WalkEnd(blocks, h, sib);
  }

  /** The sibling where the walk stops closes its window. */
  lemma WalkEnd(blocks: seq<Block>, h: nat, sib: nat)
    requires h <= sib < |blocks| && sib <= h + MaxSiblings
    requires forall k :: h < k <= sib ==> !IsSectionBreak(blocks[k])
    requires sib == h + MaxSiblings || sib + 1 == |blocks| || IsSectionBreak(blocks[sib + 1])
    ensures WindowEnd(blocks, h) == sib + 1
  {
    ScanEndIs(blocks, h + 1, h + 1 + MaxSiblings, sib + 1);
  }

  /** `discover_regular_customer_urls` (scrape_regular_customers.py), after
      the page fetch: `[]` without a content block; otherwise the addresses
      collected under the wanted headings, sorted and each once. */
  method DiscoverRegularCustomerUrls(content: Option<Content>) returns (r: seq<string>)
    ensures content.None? ==> r == []
    ensures StrictlySorted(r)
    ensures content.Some? ==> forall u :: u in r <==> u in SectionUrls(content.value.blocks, |content.value.blocks|)
  {
    if content.None? {
      return [];
    }
    var blocks := content.value.blocks;
    var urls: set<string> := {};
    var n := 0;
    while n < |blocks|
      invariant 0 <= n <= |blocks|
      invariant urls == SectionUrls(blocks, n)
    {
      var h := blocks[n];
      ghost var before := urls;
      if IsSectionBreak(h) && h.headline.Some? {
        var title := CleanText(h.headline);
        if title.Some? {
          var key := Lower(Strip(title.value));
          if key in Wanted {
            urls := WalkSection(blocks, n, urls);
          }
        }
      }
      assert Windows(blocks)[n] == SectionWindow(blocks, n);
      assert urls == before + SectionWindow(blocks, n);
      n := n + 1;
    }
    r := SortedList(urls);
  }

  // ---------- where every address comes from ----------

  /** Sibling `b` is harvested and some kept link of it has address `u`. */
  predicate Offers(b: Block, u: string) {
    Harvests(b) && exists k :: 0 <= k < |b.links| && KeptUrl(b.links[k]) == Some(u)
  }

  /** Address `u` comes from the sibling at `j`, which the walk from the
      wanted heading at `h` reaches. */
  predicate Origin(blocks: seq<Block>, u: string, h: int, j: int) {
    && 0 <= h < j < |blocks| && IsWantedHeading(blocks[h]) && j < WindowEnd(blocks, h)
    && u in BlockUrls(blocks[j])
  }

  lemma LinkUrlsIff(links: seq<Link>, u: string)
    ensures u in LinkUrls(links) <==> exists k :: 0 <= k < |links| && KeptUrl(links[k]) == Some(u)
  {
    var t := Targets(links);
    CollectIff(t, u);
    if Some(u) in t {
      var k :| 0 <= k < |t| && t[k] == Some(u);
      assert KeptUrl(links[k]) == Some(u);
    }
    if exists k :: 0 <= k < |links| && KeptUrl(links[k]) == Some(u) {
      var k :| 0 <= k < |links| && KeptUrl(links[k]) == Some(u);
      assert t[k] == Some(u);
    }
  }

  /** A sibling contributes exactly the addresses of its kept links. */
  lemma BlockUrlsIff(b: Block, u: string)
    ensures u in BlockUrls(b) <==> Offers(b, u)
  {
    if Harvests(b) {
      LinkUrlsIff(b.links, u);
    }
  }

  /** The walk from `h` collects exactly the addresses that have an origin
      at `h`. */
  lemma SectionWindowIff(blocks: seq<Block>, h: nat, u: string)
    requires h < |blocks|
    ensures u in SectionWindow(blocks, h) <==> exists j :: Origin(blocks, u, h, j)
  {
    if IsWantedHeading(blocks[h]) {
      var sets := BlockSets(blocks);
      var e := WindowEnd(blocks, h);
      UnionIff(sets, h + 1, e, u);
      if u in SectionWindow(blocks, h) {
        var j :| h + 1 <= j < e && u in sets[j];
        assert Origin(blocks, u, h, j);
      }
      if exists j :: Origin(blocks, u, h, j) {
        var j :| Origin(blocks, u, h, j);
        assert u in sets[j];
      }
    }
  }

  /** An address is discovered exactly when it has an origin. */
  lemma DiscoveredIff(blocks: seq<Block>, u: string)
    ensures u in SectionUrls(blocks, |blocks|) <==> exists h, j :: Origin(blocks, u, h, j)
  {
    var ws := Windows(blocks);
    UnionIff(ws, 0, |blocks|, u);
    if u in SectionUrls(blocks, |blocks|) {
      var h :| 0 <= h < |blocks| && u in ws[h];
      SectionWindowIff(blocks, h, u);
      var j :| Origin(blocks, u, h, j);
    }
    if exists h, j :: Origin(blocks, u, h, j) {
      var h, j :| Origin(blocks, u, h, j);
      SectionWindowIff(blocks, h, u);
      assert u in ws[h];
    }
  }

  /** Every discovered address is an article address of the wiki: the site
      address, `/wiki/`, no `:` and no fragment in the path, not a hub. */
  lemma DiscoveredArticle(blocks: seq<Block>, u: string)
    requires u in SectionUrls(blocks, |blocks|)
    ensures IsArticleUrl(u)
  {
    DiscoveredIff(blocks, u);
    var h, j :| Origin(blocks, u, h, j);
    BlockUrlsIff(blocks[j], u);
    var k :| 0 <= k < |blocks[j].links| && KeptUrl(blocks[j].links[k]) == Some(u);
    FullUrlShape(blocks[j].links[k].href);
  }

  /** The walk never passes the next section heading and never goes more
      than 30 siblings past the wanted heading. */
  lemma OriginBounds(blocks: seq<Block>, u: string, h: int, j: int)
    requires Origin(blocks, u, h, j)
    ensures j <= h + MaxSiblings
    ensures forall m :: h < m <= j ==> !IsSectionBreak(blocks[m])
  {
  }

  /** The link behind a discovered address: taken from a list, or from a
      paragraph with at least five wiki links; it points into the wiki, has
      no `:`, and its text is neither blank nor a section name. */
  lemma OriginLink(blocks: seq<Block>, u: string, h: int, j: int) returns (k: nat)
    requires Origin(blocks, u, h, j)
    ensures blocks[j].List? || (blocks[j].Paragraph? && WikiCount(blocks[j].links) >= MinParagraphLinks)
    ensures k < |blocks[j].links| && u == FullUrl(blocks[j].links[k].href)
    ensures IsWikiLink(blocks[j].links[k]) && ':' !in blocks[j].links[k].href
    ensures CleanText(Some(blocks[j].links[k].text)).Some?
    ensures Lower(CleanText(Some(blocks[j].links[k].text)).value) !in Wanted
  {
    BlockUrlsIff(blocks[j], u);
    k :| 0 <= k < |blocks[j].links| && KeptUrl(blocks[j].links[k]) == Some(u);
  }

  /** A paragraph with fewer than five wiki links contributes nothing. */
  lemma ShortParagraph(b: Block, u: string)
    requires b.Paragraph? && WikiCount(b.links) < MinParagraphLinks
    ensures u !in BlockUrls(b)
  {
  }
}
