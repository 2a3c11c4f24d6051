/**
  The parts of a parsed wiki page that the customer scraper looks at.

  A page is observed through a few independent views, each the result of one
  kind of query on the parsed document:
  - `nodes`: every element that a forward walk (`find_next`) visits, in
    document order; headings and tables are told apart, everything else is
    `Other`;
  - `infobox`: the items of the portable infobox, in document order;
  - `content`: the direct children of the main content block;
  - `h1` and `title`: the strings under the first `<h1>` and `<title>`.
  The text under an element is the sequence of its descendant strings.
*/
module Page {
  import opened Wrappers
  import opened Text

  /** The strings under an element, in document order. */
  type Fragments = seq<string>

  /** `el.get_text(" ")` */
  function TextOf(f: Fragments): string {
    Join(f, " ")
  }

  /** `el.get_text(strip=True)`: every string stripped, the empty ones
      dropped, the rest run together. */
  function StrippedText(f: Fragments): string {
    if f == [] then "" else Strip(f[0]) + StrippedText(f[1..])
  }

  /** `clean(el.get_text(" ")) if el else None` */
  function CleanText(el: Option<Fragments>): (r: Option<string>)
    ensures r.Some? ==> IsClean(r.value)
  {
    if el.None? then None else Clean(Some(TextOf(el.value)))
  }

  /** All the strings of a list of elements, in order. */
  function Concat(fs: seq<Fragments>): Fragments {
    if fs == [] then [] else fs[0] + Concat(fs[1..])
  }

  // ---------- tables ----------

  /** A `<th>` or `<td>`, with the texts of the `<b>`/`<strong>` elements in
      it. */
  datatype Cell = Cell(isHeader: bool, text: Fragments, bold: seq<Fragments>)

  /** A `<tr>` with its cells in document order. */
  datatype Row = Row(cells: seq<Cell>)

  /** A `<table>` with its `class` attribute and its rows. */
  datatype Table = Table(classes: seq<string>, rows: seq<Row>)

  function CellTexts(cells: seq<Cell>): seq<Fragments> {
    seq(|cells|, i requires 0 <= i < |cells| => cells[i].text)
  }

  function CellBolds(cells: seq<Cell>): seq<Fragments> {
    if cells == [] then [] else cells[0].bold + CellBolds(cells[1..])
  }

  /** The strings of a row. */
  function RowStrings(r: Row): Fragments {
    Concat(CellTexts(r.cells))
  }

  /** The `<b>`/`<strong>` texts of a row, in document order. */
  function RowBolds(r: Row): seq<Fragments> {
    CellBolds(r.cells)
  }

  /** `tr.find("th")` finds something. */
  predicate HasHeaderCell(r: Row) {
    exists i :: 0 <= i < |r.cells| && r.cells[i].isHeader
  }

  function RowTexts(rows: seq<Row>): seq<Fragments> {
    seq(|rows|, i requires 0 <= i < |rows| => RowStrings(rows[i]))
  }

  /** The strings of a table. */
  function TableStrings(t: Table): Fragments {
    Concat(RowTexts(t.rows))
  }

  // ---------- the forward walk ----------

  datatype Node =
    | Heading(level: nat, headline: Option<Fragments>)  // `<hN>` and its `span.mw-headline`
    | TableNode(table: Table)
    | Other

  /** `re.match(rf"^{name}\s*$", text, re.I)`: the text is `name`, in any
      letter case, followed by nothing but whitespace. */
  predicate HeadlineIs(text: string, name: string) {
    |name| <= |text| && Lower(text[..|name|]) == Lower(name) && AllSpace(text[|name|..])
  }

  /** An `<h2>` or `<h3>` whose non-empty stripped headline is `name`. */
  predicate IsHeadingNamed(n: Node, name: string) {
    && n.Heading? && (n.level == 2 || n.level == 3) && n.headline.Some?
    && StrippedText(n.headline.value) != []
    && HeadlineIs(StrippedText(n.headline.value), name)
  }

  /** `find_heading` (scrape_regular_customers.py): the first `<h2>`/`<h3>`
      at or after `from` whose headline is `name`. */
  function FindHeading(nodes: seq<Node>, name: string, from: nat): (r: Option<nat>)
    requires from <= |nodes|
    ensures r.Some? ==> from <= r.value < |nodes| && IsHeadingNamed(nodes[r.value], name)
    ensures forall i :: from <= i < |nodes| && (r.None? || i < r.value) ==> !IsHeadingNamed(nodes[i], name)
    decreases |nodes| - from
  {
    if from == |nodes| then None
    else if IsHeadingNamed(nodes[from], name) then Some(from)
    else FindHeading(nodes, name, from + 1)
  }

  /** The match is anchored at both ends: a "Mementos" headline is not a
      "Memento" one. */
  lemma HeadlineAnchored(text: string)
    requires HeadlineIs(text, "Mementos")
    ensures !HeadlineIs(text, "Memento")
  {
    assert Lower(text[..8])[7] == 's';
    assert text[7..][0] == text[7];
  }

  /** A table whose class string does not contain "navbox". */
  predicate IsContentTable(n: Node) {
    n.TableNode? && !Contains(Join(n.table.classes, " "), "navbox")
  }

  /** The positions in `[lo, hi)` that hold content tables, ascending. */
  function TablesIn(nodes: seq<Node>, lo: nat, hi: nat): (r: seq<nat>)
    requires hi <= |nodes|
    ensures forall j: nat :: j in r <==> lo <= j < hi && IsContentTable(nodes[j])
    ensures forall a, b :: 0 <= a < b < |r| ==> r[a] < r[b]
    decreases hi
  {
    if hi <= lo then []
    else
      var prefix := TablesIn(nodes, lo, hi - 1);
      assert forall a :: 0 <= a < |prefix| ==> prefix[a] in prefix;
      prefix + (if IsContentTable(nodes[hi - 1]) then [hi - 1] else [])
  }

  function Min(a: nat, b: nat): nat { if a <= b then a else b }

  /** The tables `next_tables_after` yields: the content tables among the at
      most `limit` nodes that follow `start`. */
  function TablesAfter(nodes: seq<Node>, start: nat, limit: nat): (r: seq<nat>)
    requires start < |nodes|
    ensures forall i :: 0 <= i < |r| ==> start < r[i] <= start + limit && r[i] < |nodes| && IsContentTable(nodes[r[i]])
    ensures forall j: nat :: start < j <= start + limit && j < |nodes| && IsContentTable(nodes[j]) ==> j in r
    ensures forall a, b :: 0 <= a < b < |r| ==> r[a] < r[b]
  {
    var r := TablesIn(nodes, start + 1, Min(start + limit + 1, |nodes|));
    assert forall i :: 0 <= i < |r| ==> r[i] in r;
    r
  }

  /** `next_tables_after` (scrape_regular_customers.py): walk forward from
      `start` one node at a time, at most `limit` steps, and collect the
      tables that are not navboxes. */
  method NextTablesAfter(nodes: seq<Node>, start: nat, limit: nat) returns (r: seq<nat>)
    requires start < |nodes|
    ensures r == TablesAfter(nodes, start, limit)
  {
    r := [];
    var cur := start;
    var steps := 0;
    while steps < limit
      invariant cur == start + steps && cur < |nodes|
      invariant r == TablesIn(nodes, start + 1, cur + 1)
      invariant steps <= limit
    {
      if cur + 1 == |nodes| {
        assert Min(start + limit + 1, |nodes|) == cur + 1;
        return;
      }
      cur := cur + 1;
      steps := steps + 1;
      if !nodes[cur].TableNode? {
        continue;
      }
      var cls := Join(nodes[cur].table.classes, " ");
      if Contains(cls, "navbox") {
        continue;
      }
      r := r + [cur];
    }
    assert Min(start + limit + 1, |nodes|) == cur + 1;
  }

  /** The positions of all tables, navboxes included (`find_all("table")`). */
  function AllTables(nodes: seq<Node>, hi: nat): (r: seq<nat>)
    requires hi <= |nodes|
    ensures forall j: nat :: j in r <==> j < hi && nodes[j].TableNode?
    ensures forall i :: 0 <= i < |r| ==> r[i] < hi && nodes[r[i]].TableNode?
    ensures forall a, b :: 0 <= a < b < |r| ==> r[a] < r[b]
  {
    if hi == 0 then []
    else
      var prefix := AllTables(nodes, hi - 1);
      assert forall a :: 0 <= a < |prefix| ==> prefix[a] in prefix;
      prefix + (if nodes[hi - 1].TableNode? then [hi - 1] else [])
  }

  // ---------- the infobox ----------

  /** An item of the portable infobox: whether it is a `.pi-data` row and a
      `.pi-item`, its `data-source` attribute, and the strings of its first
      `.pi-data-label`, `.pi-data-value` and `.pi-item-spacing`. */
  datatype InfoItem = InfoItem(
    isData: bool,
    isItem: bool,
    dataSource: Option<string>,
    dataLabel: Option<Fragments>,
    dataValue: Option<Fragments>,
    spacing: Option<Fragments>)

  // ---------- the main content block ----------

  /** A link with an `href` attribute. */
  datatype Link = Link(href: string, text: Fragments)

  /** A direct child of the main content block. */
  datatype Block =
    | SectionHeading(level: nat, headline: Option<Fragments>)
    | List(links: seq<Link>)                          // `<ul>`
    | Paragraph(text: Fragments, links: seq<Link>)    // `<p>`
    | OtherBlock

  /** `div.mw-parser-output`: its children, and the links inside its tables. */
  datatype Content = Content(blocks: seq<Block>, tableLinks: seq<Link>)

  datatype Page = Page(
    h1: Option<Fragments>,
    title: Option<Fragments>,
    infobox: Option<seq<InfoItem>>,
    content: Option<Content>,
    nodes: seq<Node>)
}
