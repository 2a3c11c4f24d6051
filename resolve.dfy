/**
  The value getters of the customer scraper: the infobox as an
  insertion-ordered dictionary, label patterns, label/value table rows, the
  three-tier `get_value` and the short description of the right-hand card.
*/
module Resolve {
  import opened Wrappers
  import opened Text
  import opened Page

  // ---------- an insertion-ordered dictionary ----------

  /** A `dict[str, str]`: its entries in insertion order. */
  type Entries = seq<(string, string)>

  predicate DistinctKeys(d: Entries) {
    forall i, j :: 0 <= i < j < |d| ==> d[i].0 != d[j].0
  }

  function KeysOf(d: Entries): (r: seq<string>)
    ensures |r| == |d| && forall i :: 0 <= i < |d| ==> r[i] == d[i].0
  {
    seq(|d|, i requires 0 <= i < |d| => d[i].0)
  }

  /** The first position at or after `from` that holds key `k`. */
  function IndexOf(d: Entries, k: string, from: nat): (r: Option<nat>)
    requires from <= |d|
    ensures r.Some? ==> from <= r.value < |d| && d[r.value].0 == k
    ensures r.None? ==> forall i :: from <= i < |d| ==> d[i].0 != k
    decreases |d| - from
  {
    if from == |d| then None
    else if d[from].0 == k then Some(from)
    else IndexOf(d, k, from + 1)
  }

  /** `d.get(k)` */
  function Get(d: Entries, k: string): Option<string> {
    match IndexOf(d, k, 0)
    case None => None
    case Some(i) => Some(d[i].1)
  }

  /** With distinct keys, every entry is what `Get` finds for its key. */
  lemma GetEntry(d: Entries, i: nat)
    requires DistinctKeys(d) && i < |d|
    ensures Get(d, d[i].0) == Some(d[i].1)
  {
    var j := IndexOf(d, d[i].0, 0);
    assert j.Some?;
  }

  /** `d[k] = v`: a new key goes last, an existing key keeps its place and
      takes the new value, and no other key changes. */
  function Put(d: Entries, k: string, v: string): (r: Entries)
    requires DistinctKeys(d)
    ensures DistinctKeys(r)
    ensures k in KeysOf(d) ==> KeysOf(r) == KeysOf(d)
    ensures k !in KeysOf(d) ==> KeysOf(r) == KeysOf(d) + [k]
    ensures Get(r, k) == Some(v)
    ensures forall k' :: k' != k ==> Get(r, k') == Get(d, k')
    ensures forall e :: e in r ==> e in d || e == (k, v)
  {
    match IndexOf(d, k, 0)
    case Some(i) =>
      var r := d[i := (k, v)];
      assert KeysOf(r) == KeysOf(d);
      assert forall k' | k' != k :: Get(r, k') == Get(d, k') by {
        forall k' | k' != k
          ensures Get(r, k') == Get(d, k')
        {
          IndexOfPrefix(d, r, k', 0);
        }
      }
      GetEntry(r, i);
      r
    case None =>
      var r := d + [(k, v)];
      assert KeysOf(r) == KeysOf(d) + [k];
      assert forall k' | k' != k :: Get(r, k') == Get(d, k') by {
        forall k' | k' != k
          ensures Get(r, k') == Get(d, k')
        {
          IndexOfPrefix(d, r, k', 0);
        }
      }
      GetEntry(r, |d|);
      r
  }

  /** Entries past the end of `d` that do not hold `k`, and the same keys
      up to there, leave the search for `k` unchanged. */
  lemma {:induction false} IndexOfPrefix(d: Entries, r: Entries, k: string, from: nat)
    requires from <= |d| <= |r|
    requires forall i :: from <= i < |d| ==> r[i].0 == d[i].0
    requires forall i :: |d| <= i < |r| ==> r[i].0 != k
    ensures IndexOf(r, k, from) == IndexOf(d, k, from)
    decreases |d| - from
  {
    if from < |d| {
      IndexOfPrefix(d, r, k, from + 1);
    }
  }

  /** The dictionary after the writes `es`, in order. */
  function PutAll(d: Entries, es: Entries): (r: Entries)
    requires DistinctKeys(d)
    ensures DistinctKeys(r)
    ensures forall e :: e in r ==> e in d || e in es
  {
    if es == [] then d
    else
      var last := es[|es| - 1];
      Put(PutAll(d, es[..|es| - 1]), last.0, last.1)
  }

  /** The value of the last write of `k` among `es`. */
  function LastWrite(es: Entries, k: string): Option<string> {
    if es == [] then None
    else if es[|es| - 1].0 == k then Some(es[|es| - 1].1)
    else LastWrite(es[..|es| - 1], k)
  }

  /** The last write of a key wins; a key never written keeps its value. */
  lemma {:induction false} PutAllGet(d: Entries, es: Entries, k: string)
    requires DistinctKeys(d)
    ensures Get(PutAll(d, es), k) == if LastWrite(es, k).Some? then LastWrite(es, k) else Get(d, k)
  {
    if es != [] {
      PutAllGet(d, es[..|es| - 1], k);
    }
  }

  /** `ks` followed by the keys of `more` that are new, each at its first
      appearance. */
  function AddKeys(ks: seq<string>, more: seq<string>): seq<string> {
    if more == [] then ks
    else
      var p := AddKeys(ks, more[..|more| - 1]);
      if more[|more| - 1] in p then p else p + [more[|more| - 1]]
  }

  /** Keys stay where they were first inserted. */
  lemma {:induction false} PutAllKeys(d: Entries, es: Entries)
    requires DistinctKeys(d)
    ensures KeysOf(PutAll(d, es)) == AddKeys(KeysOf(d), KeysOf(es))
  {
    if es != [] {
      PutAllKeys(d, es[..|es| - 1]);
      assert KeysOf(es)[..|es| - 1] == KeysOf(es[..|es| - 1]);
    }
  }

  // ---------- the infobox ----------

  /** The write the first loop of `infobox_kv` makes for one item: a `.pi-data`
      row with a label and a value maps the lower-cased label to the value. */
  function DataEntry(it: InfoItem): (r: Entries)
    ensures |r| <= 1 && forall e :: e in r ==> IsClean(e.1)
  {
    if !it.isData then []
    else
      var name := CleanText(it.dataLabel);
      var value := CleanText(it.dataValue);
      if name.Some? && value.Some? then [(Lower(name.value), value.value)] else []
  }

  /** The write the second loop makes for one item: a `.pi-item` with a
      non-empty `data-source` maps it, lower-cased, to the value (or, without
      a value, to the spacing text). */
  function SourceEntry(it: InfoItem): (r: Entries)
    ensures |r| <= 1 && forall e :: e in r ==> IsClean(e.1)
  {
    if !it.isItem || it.dataSource.None? then []
    else
      var v := CleanText(if it.dataValue.Some? then it.dataValue else it.spacing);
      if it.dataSource.value != "" && v.Some? then [(Lower(it.dataSource.value), v.value)] else []
  }

  function DataEntries(items: seq<InfoItem>): (r: Entries)
    ensures forall e :: e in r ==> IsClean(e.1)
  {
    if items == [] then [] else DataEntries(items[..|items| - 1]) + DataEntry(items[|items| - 1])
  }

  function SourceEntries(items: seq<InfoItem>): (r: Entries)
    ensures forall e :: e in r ==> IsClean(e.1)
  {
    if items == [] then [] else SourceEntries(items[..|items| - 1]) + SourceEntry(items[|items| - 1])
  }

  /** What `infobox_kv` returns: the writes of both loops, data rows first. */
  function InfoboxMap(box: Option<seq<InfoItem>>): (r: Entries)
    ensures DistinctKeys(r)
    ensures forall e :: e in r ==> IsClean(e.1)
  {
    if box.None? then [] else PutAll(PutAll([], DataEntries(box.value)), SourceEntries(box.value))
  }

  /** One more write of at most one entry. */
  lemma PutAllStep(d: Entries, es: Entries, e: Entries)
    requires DistinctKeys(d) && |e| <= 1
    ensures e == [] ==> PutAll(d, es + e) == PutAll(d, es)
    ensures e != [] ==> PutAll(d, es + e) == Put(PutAll(d, es), e[0].0, e[0].1)
  {
    if e == [] {
      assert es + e == es;
    } else {
      assert (es + e)[..|es + e| - 1] == es;
    }
  }

  lemma DataEntriesStep(items: seq<InfoItem>, i: nat)
    requires i < |items|
    ensures DataEntries(items[..i + 1]) == DataEntries(items[..i]) + DataEntry(items[i])
  {
    assert items[..i + 1][..i] == items[..i];
  }

  lemma SourceEntriesStep(items: seq<InfoItem>, i: nat)
    requires i < |items|
    ensures SourceEntries(items[..i + 1]) == SourceEntries(items[..i]) + SourceEntry(items[i])
  {
    assert items[..i + 1][..i] == items[..i];
  }

  /** The first loop of `infobox_kv`: the `.pi-data` rows, in order. */
  method WriteDataRows(items: seq<InfoItem>) returns (out: Entries)
    ensures out == PutAll([], DataEntries(items))
  {
    out := [];
    ghost var written: Entries := [];
    var i := 0;
    while i < |items|
      invariant 0 <= i <= |items|
      invariant written == DataEntries(items[..i]) && out == PutAll([], written)
    {
      var e := DataEntry(items[i]);
      DataEntriesStep(items, i);
      PutAllStep([], written, e);
      if e != [] {
        out := Put(out, e[0].0, e[0].1);
      }
      written := written + e;
      i := i + 1;
    }
    assert items[..i] == items;
  }

  /** The second loop of `infobox_kv`: the `.pi-item` elements with a
      `data-source`, in order, written over `d`. */
  method WriteSourceItems(d: Entries, items: seq<InfoItem>) returns (out: Entries)
    requires DistinctKeys(d)
    ensures out == PutAll(d, SourceEntries(items))
  {
    out := d;
    ghost var written: Entries := [];
    var i := 0;
    while i < |items|
      invariant 0 <= i <= |items|
      invariant written == SourceEntries(items[..i]) && out == PutAll(d, written)
    {
      var e := SourceEntry(items[i]);
      SourceEntriesStep(items, i);
      PutAllStep(d, written, e);
      if e != [] {
        out := Put(out, e[0].0, e[0].1);
      }
      written := written + e;
      i := i + 1;
    }
    assert items[..i] == items;
  }

  /** `infobox_kv` (scrape_regular_customers.py). */
  method InfoboxKv(p: Page) returns (out: Entries)
    ensures out == InfoboxMap(p.infobox)
  {
    out := [];
    if p.infobox.None? {
      return;
    }
    out := WriteDataRows(p.infobox.value);
    out := WriteSourceItems(out, p.infobox.value);
  }

  /** A key of the infobox map reads the value of its last data-source
      write, else of its last data-row write. */
  lemma InfoboxGet(items: seq<InfoItem>, k: string)
    ensures Get(InfoboxMap(Some(items)), k) ==
      if LastWrite(SourceEntries(items), k).Some? then LastWrite(SourceEntries(items), k)
      else LastWrite(DataEntries(items), k)
  {
    PutAllGet([], DataEntries(items), k);
    PutAllGet(PutAll([], DataEntries(items)), SourceEntries(items), k);
  }

  /** The keys of the infobox map, in the order they were first written. */
  lemma InfoboxKeys(items: seq<InfoItem>)
    ensures KeysOf(InfoboxMap(Some(items)))
      == AddKeys(AddKeys([], KeysOf(DataEntries(items))), KeysOf(SourceEntries(items)))
  {
    PutAllKeys([], DataEntries(items));
    PutAllKeys(PutAll([], DataEntries(items)), SourceEntries(items));
  }

  // ---------- label patterns ----------

  /** The label pattern `^first second$|^first\s+second`, searched ignoring
      letter case. */
  datatype Label = Label(first: string, second: string)

  predicate IsWord(w: string) {
    w != [] && forall i :: 0 <= i < |w| ==> !IsSpace(w[i])
  }

  /** Every label pattern the scraper uses is two words. */
  predicate LabelOk(lab: Label) {
    IsWord(lab.first) && IsWord(lab.second)
  }

  /** `^first second$` (`$` also matches before a final line feed). */
  predicate WholeLabel(lab: Label, s: string) {
    var w := Lower(lab.first + " " + lab.second);
    Lower(s) == w || Lower(s) == w + "\n"
  }

  /** `^first\s+second`: `first`, a run of whitespace, then `second`. */
  predicate SpacedLabel(lab: Label, s: string) {
    var n := |lab.first|;
    && n <= |s| && Lower(s[..n]) == Lower(lab.first)
    && var k := FirstKept(s, IsSpace, n);
    n < k && k + |lab.second| <= |s| && Lower(s[k..k + |lab.second|]) == Lower(lab.second)
  }

  predicate LabelMatches(lab: Label, s: string) {
    WholeLabel(lab, s) || SpacedLabel(lab, s)
  }

  lemma LowerSpace(c: char)
    ensures IsSpace(LowerChar(c)) <==> IsSpace(c)
  {
  }

  /** The first alternative of a label pattern adds nothing: whatever it
      matches, the second matches too. */
  lemma WholeLabelSpaced(lab: Label, s: string)
    requires LabelOk(lab) && WholeLabel(lab, s)
    ensures SpacedLabel(lab, s)
  {
    var a, b := lab.first, lab.second;
    var w := a + " " + b;
    var n := |a|;
    var ls, lw := Lower(s), Lower(w);
    assert |s| >= |w| && ls[..|w|] == lw;
    assert Lower(s[..n]) == Lower(a) by {
      LowerSlice(s, 0, n);
      LowerSlice(w, 0, n);
      assert w[0..n] == a && s[0..n] == s[..n];
    }
    assert s[n] == ' ' by {
      assert LowerChar(s[n]) == ls[n] == lw[n] == ' ';
      LowerSpace(s[n]);
    }
    assert !IsSpace(s[n + 1]) by {
      assert LowerChar(s[n + 1]) == ls[n + 1] == lw[n + 1] == LowerChar(b[0]);
      LowerSpace(s[n + 1]);
      LowerSpace(b[0]);
    }
    FirstKeptIs(s, IsSpace, n, n + 1);
    assert Lower(s[n + 1..n + 1 + |b|]) == Lower(b) by {
      LowerSlice(s, n + 1, |w|);
      LowerSlice(w, n + 1, |w|);
      assert w[n + 1..|w|] == b;
    }
  }

  lemma LabelMatchesSpaced(lab: Label, s: string)
    requires LabelOk(lab)
    ensures LabelMatches(lab, s) <==> SpacedLabel(lab, s)
  {
    if WholeLabel(lab, s) {
      WholeLabelSpaced(lab, s);
    }
  }

  const LivesIn := Label("lives", "in")
  const AppearanceWeight := Label("appearance", "weight")
  const RequiredFood := Label("required", "food")
  const DishesOrdered := Label("dishes", "ordered")
  const RequiredFacilities := Label("required", "facilities")
  const RequiredFlowers := Label("required", "flowers")
  const RequiredLetters := Label("required", "letters")

  // ---------- label/value rows ----------

  /** A row of two cells or more whose cleaned first cell matches `lab`. */
  predicate LabelRowMatches(r: Row, lab: Label) {
    |r.cells| >= 2 && var left := CleanText(Some(r.cells[0].text)); left.Some? && LabelMatches(lab, left.value)
  }

  /** Which rows match `lab`, in order. */
  function RowFlags(rows: seq<Row>, lab: Label): (r: seq<bool>)
    ensures |r| == |rows|
  {
    seq(|rows|, i requires 0 <= i < |rows| => LabelRowMatches(rows[i], lab))
  }

  /** The first row that matches `lab`. */
  function LabelRow(rows: seq<Row>, lab: Label): (r: Option<nat>)
    ensures r.Some? ==> r.value < |rows| && LabelRowMatches(rows[r.value], lab)
    ensures forall i :: 0 <= i < |rows| && (r.None? || i < r.value) ==> !LabelRowMatches(rows[i], lab)
  {
    var flags := RowFlags(rows, lab);
    assert forall i :: 0 <= i < |rows| ==> flags[i] == LabelRowMatches(rows[i], lab);
    FirstTrue(flags, 0)
  }

  /** `_table_label_value` (scrape_regular_customers.py): the cleaned second
      cell of the first matching row. The search ends at that row even when
      the second cell is blank. */
  function TableLabelValue(t: Table, lab: Label): (r: Option<string>)
    ensures r.Some? ==> IsClean(r.value)
  {
    match LabelRow(t.rows, lab)
    case None => None
    case Some(i) => CleanText(Some(t.rows[i].cells[1].text))
  }

  /** A value comes from the first matching row, and a table without a
      matching row gives none. */
  lemma TableLabelValueRow(t: Table, lab: Label)
    ensures TableLabelValue(t, lab).Some? ==>
      exists i :: 0 <= i < |t.rows|
        && LabelRowMatches(t.rows[i], lab)
        && (forall j :: 0 <= j < i ==> !LabelRowMatches(t.rows[j], lab))
        && TableLabelValue(t, lab) == CleanText(Some(t.rows[i].cells[1].text))
    ensures (forall i :: 0 <= i < |t.rows| ==> !LabelRowMatches(t.rows[i], lab)) ==> TableLabelValue(t, lab).None?
  {
    var i := LabelRow(t.rows, lab);
    if i.Some? {
      assert LabelRowMatches(t.rows[i.value], lab);
    }
  }

  predicate TablePositions(nodes: seq<Node>, ps: seq<nat>) {
    forall i :: 0 <= i < |ps| ==> ps[i] < |nodes| && nodes[ps[i]].TableNode?
  }

  /** The first present value of `vals[from..]`. */
  function FirstSome(vals: seq<Option<string>>, from: nat): (r: Option<string>)
    requires from <= |vals|
    ensures r.Some? ==> exists i :: from <= i < |vals| && vals[i] == r && forall j :: from <= j < i ==> vals[j].None?
    ensures r.None? <==> forall i :: from <= i < |vals| ==> vals[i].None?
    decreases |vals| - from
  {
    if from == |vals| then None
    else if vals[from].Some? then vals[from]
    else FirstSome(vals, from + 1)
  }

  /** What each table at `ps` gives for `lab`. */
  function TableValues(nodes: seq<Node>, ps: seq<nat>, lab: Label): (r: seq<Option<string>>)
    requires TablePositions(nodes, ps)
    ensures |r| == |ps|
    ensures forall i :: 0 <= i < |ps| ==> r[i] == TableLabelValue(nodes[ps[i]].table, lab)
  {
    seq(|ps|, i requires 0 <= i < |ps| => TableLabelValue(nodes[ps[i]].table, lab))
  }

  /** The first value found in the tables at positions `ps`, in order. */
  function FirstValue(nodes: seq<Node>, ps: seq<nat>, lab: Label): (r: Option<string>)
    requires TablePositions(nodes, ps)
    ensures r.Some? ==> IsClean(r.value)
  {
    var vals := TableValues(nodes, ps, lab);
    var r := FirstSome(vals, 0);
    assert r.Some? ==> exists i :: 0 <= i < |ps| && TableLabelValue(nodes[ps[i]].table, lab) == r;
    r
  }

  /** The value of the first entry at or after `from` whose key matches. */
  function FirstMatch(d: Entries, lab: Label, from: nat): (r: Option<string>)
    requires from <= |d|
    ensures r.Some? ==> exists i :: from <= i < |d| && LabelMatches(lab, d[i].0) && r.value == d[i].1
                                   && forall j :: from <= j < i ==> !LabelMatches(lab, d[j].0)
    ensures r.None? <==> forall i :: from <= i < |d| ==> !LabelMatches(lab, d[i].0)
    decreases |d| - from
  {
    if from == |d| then None
    else if LabelMatches(lab, d[from].0) then Some(d[from].1)
    else FirstMatch(d, lab, from + 1)
  }

  // ---------- get_value ----------

  /** The second tier: the tables within 80 nodes after the "Requirements"
      heading. */
  function RequirementsValue(nodes: seq<Node>, lab: Label): Option<string> {
    match FindHeading(nodes, "Requirements", 0)
    case None => None
    case Some(h) => FirstValue(nodes, TablesAfter(nodes, h, 80), lab)
  }

  /** What `get_value` returns: the infobox first, then the Requirements
      section, then every table of the page. */
  function ResolveValue(p: Page, lab: Label): (r: Option<string>)
    ensures r.Some? ==> IsClean(r.value)
  {
    var box := InfoboxMap(p.infobox);
    var fromBox := FirstMatch(box, lab, 0);
    if fromBox.Some? then
      assert exists i :: 0 <= i < |box| && fromBox.value == box[i].1;
      fromBox
    else
      var fromReq := RequirementsValue(p.nodes, lab);
      if fromReq.Some? then fromReq else FirstValue(p.nodes, AllTables(p.nodes, |p.nodes|), lab)
  }

  /** The first value found in the tables at `ps`, one table at a time. */
  method FirstTableValue(nodes: seq<Node>, ps: seq<nat>, lab: Label) returns (r: Option<string>)
    requires TablePositions(nodes, ps)
    ensures r == FirstValue(nodes, ps, lab)
  {
    ghost var vals := TableValues(nodes, ps, lab);
    var j := 0;
    while j < |ps|
      invariant 0 <= j <= |ps|
      invariant FirstSome(vals, 0) == FirstSome(vals, j)
    {
      var got := TableLabelValue(nodes[ps[j]].table, lab);
      if got.Some? {
        return got;
      }
      j := j + 1;
    }
    return None;
  }

  /** The first value among the infobox entries whose key matches. */
  method FirstKeyMatch(kv: Entries, lab: Label) returns (r: Option<string>)
    ensures r == FirstMatch(kv, lab, 0)
  {
    var i := 0;
    while i < |kv|
      invariant 0 <= i <= |kv|
      invariant FirstMatch(kv, lab, 0) == FirstMatch(kv, lab, i)
    {
      if LabelMatches(lab, kv[i].0) {
        return Some(kv[i].1);
      }
      i := i + 1;
    }
    return None;
  }

  /** `get_value` (scrape_regular_customers.py). */
  method GetValue(p: Page, lab: Label) returns (r: Option<string>)
    ensures r == ResolveValue(p, lab)
  {
    var kv := InfoboxKv(p);
    r := FirstKeyMatch(kv, lab);
    if r.Some? {
      return;
    }
    var h := FindHeading(p.nodes, "Requirements", 0);
    if h.Some? {
      var tables := NextTablesAfter(p.nodes, h.value, 80);
      r := FirstTableValue(p.nodes, tables, lab);
      if r.Some? {
        return;
      }
    }
    r := FirstTableValue(p.nodes, AllTables(p.nodes, |p.nodes|), lab);
  }

  /** An infobox match decides the value: the rest of the page is not
      consulted. */
  lemma InfoboxWins(p: Page, lab: Label, nodes: seq<Node>)
    requires FirstMatch(InfoboxMap(p.infobox), lab, 0).Some?
    ensures ResolveValue(p, lab) == FirstMatch(InfoboxMap(p.infobox), lab, 0)
    ensures ResolveValue(p.(nodes := nodes), lab) == ResolveValue(p, lab)
  {
  }

  /** A search of the tables at `ps` finds nothing exactly when none of
      them gives a value. */
  lemma FirstValueNone(nodes: seq<Node>, ps: seq<nat>, lab: Label)
    requires TablePositions(nodes, ps)
    ensures FirstValue(nodes, ps, lab).None? <==>
      forall k :: 0 <= k < |ps| ==> TableLabelValue(nodes[ps[k]].table, lab).None?
  {
    var vals := TableValues(nodes, ps, lab);
    assert FirstValue(nodes, ps, lab) == FirstSome(vals, 0);
  }

  /** Row `i` of the table at node `j` matches `lab`, and `v` is its
      cleaned second cell. */
  predicate RowGives(nodes: seq<Node>, j: int, i: int, lab: Label, v: Option<string>) {
    && 0 <= j < |nodes| && nodes[j].TableNode? && 0 <= i < |nodes[j].table.rows|
    && LabelRowMatches(nodes[j].table.rows[i], lab)
    && v == CleanText(Some(nodes[j].table.rows[i].cells[1].text))
  }

  lemma FirstValueRow(nodes: seq<Node>, ps: seq<nat>, lab: Label)
    requires TablePositions(nodes, ps) && FirstValue(nodes, ps, lab).Some?
    ensures exists j, i :: RowGives(nodes, j, i, lab, FirstValue(nodes, ps, lab))
  {
    var vals := TableValues(nodes, ps, lab);
    assert FirstValue(nodes, ps, lab) == FirstSome(vals, 0);
    var k :| 0 <= k < |ps| && vals[k] == FirstSome(vals, 0);
    var t := nodes[ps[k]].table;
    TableLabelValueRow(t, lab);
    var i :| 0 <= i < |t.rows| && LabelRowMatches(t.rows[i], lab) && TableLabelValue(t, lab) == CleanText(Some(t.rows[i].cells[1].text));
    assert RowGives(nodes, ps[k], i, lab, FirstValue(nodes, ps, lab));
  }

  /** No table of the page gives a value exactly when the search of all
      tables finds none; then the Requirements search finds none either. */
  lemma TablesNone(nodes: seq<Node>, lab: Label)
    ensures FirstValue(nodes, AllTables(nodes, |nodes|), lab).None? <==>
      forall j :: 0 <= j < |nodes| && nodes[j].TableNode? ==> TableLabelValue(nodes[j].table, lab).None?
    ensures FirstValue(nodes, AllTables(nodes, |nodes|), lab).None? ==> RequirementsValue(nodes, lab).None?
  {
    var all := AllTables(nodes, |nodes|);
    FirstValueNone(nodes, all, lab);
    if forall k :: 0 <= k < |all| ==> TableLabelValue(nodes[all[k]].table, lab).None? {
      forall j | 0 <= j < |nodes| && nodes[j].TableNode?
        ensures TableLabelValue(nodes[j].table, lab).None?
      {
        assert j in all;
      }
      var h := FindHeading(nodes, "Requirements", 0);
      if h.Some? {
        FirstValueNone(nodes, TablesAfter(nodes, h.value, 80), lab);
      }
    }
  }

  /** A value is found unless no infobox key matches and no table of the
      page has a matching row with a non-blank second cell. */
  lemma ResolveNone(p: Page, lab: Label)
    ensures ResolveValue(p, lab).None? <==>
      && FirstMatch(InfoboxMap(p.infobox), lab, 0).None?
      && (forall j :: 0 <= j < |p.nodes| && p.nodes[j].TableNode? ==> TableLabelValue(p.nodes[j].table, lab).None?)
  {
    var fromBox := FirstMatch(InfoboxMap(p.infobox), lab, 0);
    TablesNone(p.nodes, lab);
    if fromBox.None? {
      assert ResolveValue(p, lab) == if RequirementsValue(p.nodes, lab).Some? then RequirementsValue(p.nodes, lab)
        else FirstValue(p.nodes, AllTables(p.nodes, |p.nodes|), lab);
    }
  }

  /** Every value comes from a matching infobox key, or from the second cell
      of a matching row of two cells or more in some table. */
  lemma ResolveSound(p: Page, lab: Label)
    requires ResolveValue(p, lab).Some?
    ensures
      || (exists e :: e in InfoboxMap(p.infobox) && LabelMatches(lab, e.0) && ResolveValue(p, lab) == Some(e.1))
      || (exists j, i :: RowGives(p.nodes, j, i, lab, ResolveValue(p, lab)))
  {
    var box := InfoboxMap(p.infobox);
    var fromBox := FirstMatch(box, lab, 0);
    if fromBox.Some? {
      var i :| 0 <= i < |box| && LabelMatches(lab, box[i].0) && fromBox.value == box[i].1;
      assert box[i] in box;
    } else {
      var h := FindHeading(p.nodes, "Requirements", 0);
      if h.Some? && RequirementsValue(p.nodes, lab).Some? {
        FirstValueRow(p.nodes, TablesAfter(p.nodes, h.value, 80), lab);
      } else {
        FirstValueRow(p.nodes, AllTables(p.nodes, |p.nodes|), lab);
      }
    }
  }

  /** A value found in the tables at `ps` is the value of the first of
      them that gives one. */
  lemma FirstValueFirst(nodes: seq<Node>, ps: seq<nat>, lab: Label)
    requires TablePositions(nodes, ps) && FirstValue(nodes, ps, lab).Some?
    ensures exists k :: 0 <= k < |ps| && FirstValue(nodes, ps, lab) == TableLabelValue(nodes[ps[k]].table, lab)
                        && forall j :: 0 <= j < k ==> TableLabelValue(nodes[ps[j]].table, lab).None?
  {
    var vals := TableValues(nodes, ps, lab);
    assert FirstValue(nodes, ps, lab) == FirstSome(vals, 0);
    var k :| 0 <= k < |vals| && vals[k] == FirstSome(vals, 0) && forall j :: 0 <= j < k ==> vals[j].None?;
    assert forall j :: 0 <= j < k ==> TableLabelValue(nodes[ps[j]].table, lab) == vals[j];
  }

  /** The second tier: when no infobox key matches and a table after the
      "Requirements" heading gives a value, `get_value` returns the value of
      the first such table the walk meets, whatever the other tables hold. */
  lemma RequirementsTier(p: Page, lab: Label, h: nat)
    requires FirstMatch(InfoboxMap(p.infobox), lab, 0).None?
    requires FindHeading(p.nodes, "Requirements", 0) == Some(h)
    requires RequirementsValue(p.nodes, lab).Some?
    ensures ResolveValue(p, lab) == RequirementsValue(p.nodes, lab)
    ensures var ts := TablesAfter(p.nodes, h, 80);
      exists k :: 0 <= k < |ts| && ResolveValue(p, lab) == TableLabelValue(p.nodes[ts[k]].table, lab)
                  && forall j :: 0 <= j < k ==> TableLabelValue(p.nodes[ts[j]].table, lab).None?
  {
    FirstValueFirst(p.nodes, TablesAfter(p.nodes, h, 80), lab);
  }

  /** The first present value among the values at ascending positions `ps`
      of `nv` is preceded only by absent values of `nv`, when every present
      value of `nv` sits at one of those positions. */
  lemma FirstAtPositions(nv: seq<Option<string>>, ps: seq<nat>, vals: seq<Option<string>>)
    requires |vals| == |ps|
    requires forall m :: 0 <= m < |ps| ==> ps[m] < |nv| && vals[m] == nv[ps[m]]
    requires forall a, b :: 0 <= a < b < |ps| ==> ps[a] < ps[b]
    requires forall i :: 0 <= i < |nv| && nv[i].Some? ==> i in ps
    requires FirstSome(vals, 0).Some?
    ensures exists j :: j in ps && FirstSome(vals, 0) == nv[j] && forall i :: 0 <= i < j ==> nv[i].None?
  {
    var k :| 0 <= k < |vals| && vals[k] == FirstSome(vals, 0) && forall j :: 0 <= j < k ==> vals[j].None?;
    assert forall m :: 0 <= m < |ps| && ps[m] < ps[k] ==> m < k;
    assert ps[k] in ps;
  }

  /** What each node of the page gives for `lab`: a table its value, any
      other node nothing. */
  function NodeValues(nodes: seq<Node>, lab: Label): (r: seq<Option<string>>)
    ensures |r| == |nodes|
  {
    seq(|nodes|, i requires 0 <= i < |nodes| => if nodes[i].TableNode? then TableLabelValue(nodes[i].table, lab) else None)
  }

  lemma AllTablesValues(nodes: seq<Node>, lab: Label)
    ensures var all := AllTables(nodes, |nodes|);
      forall m :: 0 <= m < |all| ==> TableValues(nodes, all, lab)[m] == NodeValues(nodes, lab)[all[m]]
  {
  }

  lemma NodeValuesInTables(nodes: seq<Node>, lab: Label)
    ensures forall i :: 0 <= i < |nodes| && NodeValues(nodes, lab)[i].Some? ==> i in AllTables(nodes, |nodes|)
  {
  }

  /** A value found by the search of all tables is the value of the first
      table of the page, in document order, that gives one. */
  lemma AllTablesFirst(nodes: seq<Node>, lab: Label)
    requires FirstValue(nodes, AllTables(nodes, |nodes|), lab).Some?
    ensures exists j :: j in AllTables(nodes, |nodes|)
                        && FirstValue(nodes, AllTables(nodes, |nodes|), lab) == NodeValues(nodes, lab)[j]
                        && forall i :: 0 <= i < j ==> NodeValues(nodes, lab)[i].None?
  {
    var all := AllTables(nodes, |nodes|);
    AllTablesValues(nodes, lab);
    NodeValuesInTables(nodes, lab);
    assert FirstValue(nodes, all, lab) == FirstSome(TableValues(nodes, all, lab), 0);
    FirstAtPositions(NodeValues(nodes, lab), all, TableValues(nodes, all, lab));
  }

  /** The third tier: when neither the infobox nor the Requirements tables
      give a value, `get_value` returns the value of the first table of the
      page, in document order, that gives one. */
  lemma AllTablesTier(p: Page, lab: Label)
    requires FirstMatch(InfoboxMap(p.infobox), lab, 0).None?
    requires RequirementsValue(p.nodes, lab).None?
    requires ResolveValue(p, lab).Some?
    ensures exists j :: j in AllTables(p.nodes, |p.nodes|)
                        && ResolveValue(p, lab) == NodeValues(p.nodes, lab)[j]
                        && forall i :: 0 <= i < j ==> NodeValues(p.nodes, lab)[i].None?
  {
    assert ResolveValue(p, lab) == FirstValue(p.nodes, AllTables(p.nodes, |p.nodes|), lab);
    AllTablesFirst(p.nodes, lab);
  }

  // ---------- get_right_card_description ----------

  const DescriptionLimit := 400

  /** The item `select_one` finds for `[data-source='description']
      .pi-data-value` or, with `onlyData`, for
      `.pi-data[data-source='description'] .pi-data-value`. */
  predicate SelectsDescription(it: InfoItem, onlyData: bool) {
    it.dataSource == Some("description") && it.dataValue.Some? && (it.isData || !onlyData)
  }

  /** A cleaned text the right card accepts: present and at most 400
      characters long. */
  predicate Short(t: Option<string>) {
    t.Some? && |t.value| <= DescriptionLimit
  }

  /** The first infobox item at or after `from` that the selector finds. */
  function DescriptionItem(items: seq<InfoItem>, onlyData: bool, from: nat): (r: Option<nat>)
    requires from <= |items|
    ensures r.Some? ==> from <= r.value < |items| && SelectsDescription(items[r.value], onlyData)
    ensures forall k :: from <= k < |items| && (r.None? || k < r.value) ==> !SelectsDescription(items[k], onlyData)
    decreases |items| - from
  {
    if from == |items| then None
    else if SelectsDescription(items[from], onlyData) then Some(from)
    else DescriptionItem(items, onlyData, from + 1)
  }

  /** One of the two selectors: the cleaned text of the element it finds,
      when that is at most 400 characters long. A longer text is not cut:
      the selector then gives nothing. */
  function SelectorDescription(items: seq<InfoItem>, onlyData: bool): (r: Option<string>)
    ensures r.Some? <==> DescriptionItem(items, onlyData, 0).Some?
                         && Short(CleanText(items[DescriptionItem(items, onlyData, 0).value].dataValue))
    ensures r.Some? ==> r == CleanText(items[DescriptionItem(items, onlyData, 0).value].dataValue)
  {
    match DescriptionItem(items, onlyData, 0)
    case None => None
    case Some(i) =>
      var t := CleanText(items[i].dataValue);
      if Short(t) then t else None
  }

  /** A `.pi-data` row with a label whose stripped, lower-cased text
      contains "description". */
  predicate LabelsDescription(it: InfoItem) {
    it.isData && it.dataLabel.Some? && Contains(Lower(Strip(TextOf(it.dataLabel.value))), "description")
  }

  /** A labelled row the right card accepts: its label contains
      "description" and its cleaned value is short enough. */
  predicate AcceptsLabelled(it: InfoItem) {
    LabelsDescription(it) && Short(CleanText(it.dataValue))
  }

  /** The first accepted labelled row at or after `from`. */
  function LabelledRow(items: seq<InfoItem>, from: nat): (r: Option<nat>)
    requires from <= |items|
    ensures r.Some? ==> from <= r.value < |items| && AcceptsLabelled(items[r.value])
    ensures forall k :: from <= k < |items| && (r.None? || k < r.value) ==> !AcceptsLabelled(items[k])
    decreases |items| - from
  {
    if from == |items| then None
    else if AcceptsLabelled(items[from]) then Some(from)
    else LabelledRow(items, from + 1)
  }

  /** The rows whose label contains "description": the cleaned value of
      the first one whose value is short enough, none when no row has one. */
  function LabelledDescription(items: seq<InfoItem>): (r: Option<string>)
    ensures r.Some? <==> LabelledRow(items, 0).Some?
    ensures r.Some? ==> r == CleanText(items[LabelledRow(items, 0).value].dataValue) && Short(r)
  {
    match LabelledRow(items, 0)
    case None => None
    case Some(i) => CleanText(items[i].dataValue)
  }

  /** The infobox part: the first selector, then the second, then the
      labelled rows. */
  function BoxDescription(items: seq<InfoItem>): (r: Option<string>)
    ensures r.Some? ==> IsClean(r.value) && |r.value| <= DescriptionLimit
    ensures r.Some? ==> exists i :: 0 <= i < |items| && CleanText(items[i].dataValue) == r
    ensures SelectorDescription(items, false).Some? ==> r == SelectorDescription(items, false)
    ensures SelectorDescription(items, false).None? && SelectorDescription(items, true).Some? ==>
              r == SelectorDescription(items, true)
    ensures SelectorDescription(items, false).None? && SelectorDescription(items, true).None? ==>
              r == LabelledDescription(items)
  {
    var a := SelectorDescription(items, false);
    if a.Some? then a
    else
      var b := SelectorDescription(items, true);
      if b.Some? then b else LabelledDescription(items)
  }

  /** A direct paragraph of the content whose cleaned text is longer than 10
      characters and is not a disambiguation notice. */
  predicate Describes(b: Block) {
    b.Paragraph? &&
    var t := CleanText(Some(b.text));
    t.Some? && |t.value| > 10 && !Contains(t.value, "This article is about")
  }

  /** The first 400 characters of such a paragraph's cleaned text. */
  function ParagraphCut(b: Block): (r: string)
    requires Describes(b)
    ensures 0 < |r| <= DescriptionLimit
    ensures r <= CleanText(Some(b.text)).value
  {
    var t := CleanText(Some(b.text)).value;
    t[..Min(DescriptionLimit, |t|)]
  }

  /** The first paragraph at or after `from` that describes. */
  function DescribingParagraph(blocks: seq<Block>, from: nat): (r: Option<nat>)
    requires from <= |blocks|
    ensures r.Some? ==> from <= r.value < |blocks| && Describes(blocks[r.value])
    ensures forall k :: from <= k < |blocks| && (r.None? || k < r.value) ==> !Describes(blocks[k])
    decreases |blocks| - from
  {
    if from == |blocks| then None
    else if Describes(blocks[from]) then Some(from)
    else DescribingParagraph(blocks, from + 1)
  }

  /** The paragraph fallback: the cut text of the first paragraph that
      describes, none when no paragraph does. */
  function ParagraphDescription(blocks: seq<Block>): (r: Option<string>)
    ensures r.Some? <==> DescribingParagraph(blocks, 0).Some?
    ensures r.Some? ==> r.value == ParagraphCut(blocks[DescribingParagraph(blocks, 0).value])
  {
    match DescribingParagraph(blocks, 0)
    case None => None
    case Some(k) => Some(ParagraphCut(blocks[k]))
  }

  /** `get_right_card_description` (scrape_regular_customers.py): an infobox
      value is taken whole or not at all; only the paragraph fallback is cut
      to 400 characters. */
  function RightCardDescription(p: Page): (r: Option<string>)
    ensures r.Some? ==> 0 < |r.value| <= DescriptionLimit
    ensures p.infobox.Some? && BoxDescription(p.infobox.value).Some? ==> r == BoxDescription(p.infobox.value)
    ensures (p.infobox.None? || BoxDescription(p.infobox.value).None?) && p.content.Some? ==>
              r == ParagraphDescription(p.content.value.blocks)
    ensures p.content.None? && (p.infobox.None? || BoxDescription(p.infobox.value).None?) ==> r.None?
  {
    var fromBox := if p.infobox.None? then None else BoxDescription(p.infobox.value);
    if fromBox.Some? then fromBox
    else if p.content.None? then None
    else ParagraphDescription(p.content.value.blocks)
  }

  /** An accepted infobox description is the result whatever the content
      block holds: the paragraphs are not consulted. */
  lemma InfoboxDescriptionWins(p: Page, content: Option<Content>)
    requires p.infobox.Some? && BoxDescription(p.infobox.value).Some?
    ensures RightCardDescription(p.(content := content)) == RightCardDescription(p) == BoxDescription(p.infobox.value)
  {
  }

  /** A selected description item whose text is longer than 400 characters
      is passed over, not cut: the result is then the second selector's,
      the labelled rows' or the paragraph's. */
  lemma LongSelectedFallsThrough(p: Page, i: nat)
    requires p.infobox.Some? && DescriptionItem(p.infobox.value, false, 0) == Some(i)
    requires CleanText(p.infobox.value[i].dataValue).Some? && |CleanText(p.infobox.value[i].dataValue).value| > DescriptionLimit
    ensures SelectorDescription(p.infobox.value, false).None?
    ensures RightCardDescription(p) != CleanText(p.infobox.value[i].dataValue)
  {
  }
}
