# Animal Restaurant regular-customer scraper, modelled in Dafny

This project models the extraction logic of the Animal Restaurant wiki
scraper: `lib/scraping/scrape_regular_customers.py` and the older discovery
routine in `lib/scraping/scrape.py`. The scraper reads wiki pages about the
game's regular customers and turns each page into a customer record. A
record holds the customer's name and slug id, where the customer lives, the
appearance weight, the food it requires, the dishes it orders, the required
facilities, flowers and letters, a short description and its mementos (the
rewards listed in the page's memento table).

A parsed page is an input value (`Page.Page`). The model does not parse
HTML; it uses the views of the document that the scraper queries:
- the forward walk over elements (headings, tables, everything else);
- the portable infobox items;
- the direct children of the main content block;
- the strings under `<h1>` and `<title>`.

The modules follow the source:
- `Text`: `slugify`, `clean`, `split_list` and `parse_int`, on ASCII text.
- `Order`: Python's string order and `sorted` applied to a set.
- `Page`: the document views, `find_heading`, `next_tables_after` and `find_all("table")`.
- `Resolve`: `infobox_kv` as an insertion-ordered dictionary, the two-word label patterns, `_table_label_value`, the three-tier `get_value` and `get_right_card_description`.
- `WikiUrls`: the site address, fragment stripping, `urljoin` on `/wiki/` links and the two hub pages.
- `Discovery`: the section walk of `discover_regular_customer_urls`.
- `Legacy`: `_is_wiki_article` and the table-link discovery of `scrape.py`.
- `Mementos`: `_find_memento_table` and `parse_mementos`, with the regular expressions written as scanners.
- `Customer`: the record assembly of `scrape_customer`.

Where a source function updates state step by step, it is a `method`:
`next_tables_after`, the two loops of `infobox_kv`, the link and sibling
loops of discovery and the row loop of `parse_mementos` keep their loops,
and the tag list of `scrape_customer` keeps its one conditional append.
Each such method is proved equal to a specification function. The properties the source promises are proved about those
functions as lemmas.

Two behaviours of the code are easy to miss:
- A memento row whose text contains "times" nowhere, in any letter case, not even inside another word, has no requirement, whatever else it says. The pattern at line 334 of `scrape_regular_customers.py` needs the letters "times" and has no word boundary around them, so "Serve guests sometimes" does match (`Mementos.NoTimesNoRequirement`).
- A `<title>` that is present but blank leaves the name absent and the id `""`. "Unknown" is used only when there is no `<title>` at all (lines 374-380, `Customer.NameFallbacks`).

## Model

| member | source | states |
|---|---|---|
| Text.Slugify | lib/scraping/scrape_regular_customers.py:19-26 | The result is always a slug: only `a-z`, `0-9` and `_`, no `_` at either end, never `__`; `""` for an absent text; `SlugifyJoinsRuns` pins the value |
| Text.SlugifyJoinsRuns | lib/scraping/scrape_regular_customers.py:19-26 | `slugify(x)` is the runs of `[a-z0-9]` characters of `x` (stripped, lower-cased, apostrophes removed) joined by one `_` each |
| Text.SameRunsSameSlug | lib/scraping/scrape_regular_customers.py:19-26 | Two texts whose slug characters form the same runs have the same slug |
| Text.SlugifyLower | lib/scraping/scrape_regular_customers.py:22 | Lower-casing a text first does not change its slug |
| Text.OHareSlug | lib/scraping/scrape_regular_customers.py:19-26 | "Mr. O'Hare" and "mr ohare" both give `mr_ohare` |
| Text.SlugUnchanged | lib/scraping/scrape_regular_customers.py:19-26 | A slug is its own slug |
| Text.SlugifyIdempotent | lib/scraping/scrape_regular_customers.py:19-26 | `slugify(slugify(x)) == slugify(x)` |
| Text.Clean | lib/scraping/scrape_regular_customers.py:28-32 | Absent exactly when the text is absent, empty or all whitespace; otherwise non-empty, no whitespace at either end, every whitespace a single space between non-spaces, and the same non-whitespace characters in the same order |
| Text.CleanUnchanged | lib/scraping/scrape_regular_customers.py:28-32 | A clean text is left unchanged by `clean` |
| Text.CleanIdempotent | lib/scraping/scrape_regular_customers.py:28-32 | Cleaning twice is cleaning once |
| Text.WordsReplaceRuns | lib/scraping/scrape_regular_customers.py:31 | Collapsing every whitespace run to one space keeps the words (`str.split()`) of the text |
| Text.JoinWordsClean | lib/scraping/scrape_regular_customers.py:31 | A cleaned text is its words joined by single spaces |
| Text.CleanJoinsWords | lib/scraping/scrape_regular_customers.py:28-32 | `clean(t)` is `" ".join(t.split())`: the words of `t` joined by exactly one space each, absent exactly when `t` has no word |
| Text.ReplaceRunsWithout | lib/scraping/scrape_regular_customers.py:31 | Collapsing whitespace runs keeps every other character in order |
| Text.ReplaceRunsSingle | lib/scraping/scrape_regular_customers.py:31 | After collapsing, every whitespace character is a lone space |
| Text.JoinSplit | lib/scraping/scrape_regular_customers.py:44 | Joining the pieces of `s.split(sep)` with `sep` gives `s` back |
| Text.SplitJoin | lib/scraping/scrape_regular_customers.py:44 | Splitting a join of separator-free pieces gives the pieces back |
| Text.SplitListDelimiters | lib/scraping/scrape_regular_customers.py:34-45 | `·` and `•` separate items exactly as `,` does |
| Text.SplitList | lib/scraping/scrape_regular_customers.py:34-45 | `[]` for an absent or empty text; every element is a slug; at most one element per piece of the split |
| Text.SplitListOfJoin | lib/scraping/scrape_regular_customers.py:34-45 | Items written with `,`, `·` or `•` between them give one slug per item that is not blank, in order; blank pieces such as those of `"A,,B"` or `"A, ,B"` give nothing |
| Text.ParseInt | lib/scraping/scrape_regular_customers.py:47-53 | Absent exactly when the text is absent or holds no digit |
| Text.ParseIntNumeral | lib/scraping/scrape_regular_customers.py:47-53 | The first numeral after digit-free text, thousands separators included, reads as its digits with the commas removed, whatever non-numeral follows it |
| Text.ParseIntDecimal | lib/scraping/scrape_regular_customers.py:47-53 | A number written after digit-free text is read back exactly, whatever non-numeral follows it |
| Text.ParseIntThousands | lib/scraping/scrape_regular_customers.py:47-53 | `"Weight: 1,250 kg"` gives 1250 |
| Order.SortedList | lib/scraping/scrape_regular_customers.py:271 | `sorted(urls)`: strictly ascending in Python's string order, with exactly the members of the set |
| Order.SortedUnique | lib/scraping/scrape_regular_customers.py:271 | Two strictly sorted lists with the same members are equal, so the sorted list of a set is unique |
| Order.SortedDistinct | lib/scraping/scrape_regular_customers.py:271 | A strictly sorted list has no repeats |
| Page.FindHeading | lib/scraping/scrape_regular_customers.py:55-62 | The first `<h2>`/`<h3>` whose non-empty stripped headline matches the name, anchored and ignoring case; no earlier one matches |
| Page.HeadlineAnchored | lib/scraping/scrape_regular_customers.py:57 | A "Mementos" headline does not match "Memento", so that heading is found only by the second call on line 276 |
| Page.TablesAfter | lib/scraping/scrape_regular_customers.py:64-80 | Every table yielded lies within `limit` nodes after the start and is not a navbox; every such table is yielded, in document order |
| Page.NextTablesAfter | lib/scraping/scrape_regular_customers.py:64-80 | The `cur`/`steps` loop yields exactly `TablesAfter` |
| Page.AllTables | lib/scraping/scrape_regular_customers.py:137 | `find_all("table")`: every table position, ascending |
| Resolve.Put | lib/scraping/scrape_regular_customers.py:101 | A dict assignment: a new key is appended, an existing key keeps its position, the key then maps to the value and nothing else changes |
| Resolve.PutAllGet | lib/scraping/scrape_regular_customers.py:100-109 | After a run of assignments a key maps to its last written value, or to what it had before |
| Resolve.PutAllKeys | lib/scraping/scrape_regular_customers.py:100-109 | After a run of assignments the keys are in first-insertion order |
| Resolve.InfoboxMap | lib/scraping/scrape_regular_customers.py:84-111 | The infobox dict has distinct keys and clean values |
| Resolve.WriteDataRows | lib/scraping/scrape_regular_customers.py:95-101 | The `.pi-data` loop writes exactly the data-row entries into an empty dict |
| Resolve.WriteSourceItems | lib/scraping/scrape_regular_customers.py:104-109 | The `data-source` loop writes exactly the source entries on top of the data rows |
| Resolve.InfoboxKv | lib/scraping/scrape_regular_customers.py:84-111 | `infobox_kv` returns exactly `InfoboxMap`; an empty dict without an infobox |
| Resolve.InfoboxGet | lib/scraping/scrape_regular_customers.py:84-111 | A key maps to its last `data-source` value, else its last data-row value |
| Resolve.InfoboxKeys | lib/scraping/scrape_regular_customers.py:84-111 | The dict's keys come in the order they were first written, data rows first |
| Resolve.LabelMatchesSpaced | lib/scraping/scrape_regular_customers.py:382-390 | A label pattern `^a b$\|^a\s+b` matches exactly when `a`, whitespace, `b` starts the text, ignoring case |
| Resolve.LabelRow | lib/scraping/scrape_regular_customers.py:144-152 | The first row with at least two cells whose cleaned first cell matches the label; no earlier row does |
| Resolve.TableLabelValue | lib/scraping/scrape_regular_customers.py:144-152 | A value found in a table is clean |
| Resolve.TableLabelValueRow | lib/scraping/scrape_regular_customers.py:144-152 | A table value is the cleaned second cell of the first matching row; no matching row gives none |
| Resolve.FirstMatch | lib/scraping/scrape_regular_customers.py:123-126 | The value of a dict key the label matches such that no earlier key, in insertion order, matches; none exactly when no key matches |
| Resolve.FirstKeyMatch | lib/scraping/scrape_regular_customers.py:123-126 | The key loop returns exactly `FirstMatch` |
| Resolve.FirstTableValue | lib/scraping/scrape_regular_customers.py:131-140 | The table loop returns exactly the first table value found, table by table |
| Resolve.FirstSome | lib/scraping/scrape_regular_customers.py:131-140 | A present value such that every earlier one is absent; none exactly when all are absent |
| Resolve.FirstValueFirst | lib/scraping/scrape_regular_customers.py:131-140 | A value found in a list of tables is the value of a table such that no earlier table of the list gives one |
| Resolve.FirstValueNone | lib/scraping/scrape_regular_customers.py:131-140 | No value is found exactly when no table gives one |
| Resolve.ResolveValue | lib/scraping/scrape_regular_customers.py:113-142 | Every value found is clean |
| Resolve.RequirementsTier | lib/scraping/scrape_regular_customers.py:128-134 | With no infobox match and a value in the tables after "Requirements", `get_value` returns that value, from the first of those tables that gives one, whatever the other tables hold |
| Resolve.AllTablesFirst | lib/scraping/scrape_regular_customers.py:137-140 | The search of all tables gives the value of the first table of the page, in document order, that gives one |
| Resolve.AllTablesTier | lib/scraping/scrape_regular_customers.py:113-142 | With neither an infobox match nor a Requirements value, `get_value` returns the value of the first table of the page, in document order, that gives one |
| Resolve.GetValue | lib/scraping/scrape_regular_customers.py:113-142 | `get_value` returns exactly `ResolveValue`: the infobox, then the tables after "Requirements" (80 steps), then every table |
| Resolve.InfoboxWins | lib/scraping/scrape_regular_customers.py:122-126 | An infobox match decides the value; replacing every table of the page does not change it |
| Resolve.TablesNone | lib/scraping/scrape_regular_customers.py:128-140 | The fallback over all tables finds nothing exactly when no table gives a value (none has a matching row, or its first matching row has a blank second cell), and then the Requirements tier finds nothing either |
| Resolve.ResolveNone | lib/scraping/scrape_regular_customers.py:113-152 | No value exactly when no infobox key matches and no table gives a value: none has a matching row, or its first matching row has a blank second cell |
| Resolve.ResolveSound | lib/scraping/scrape_regular_customers.py:113-152 | A value found is a matching infobox entry or the second cell of a matching row of some table |
| Resolve.DescriptionItem | lib/scraping/scrape_regular_customers.py:162-166 | The first infobox item the selector finds (`data-source` "description" with a value, and a `.pi-data` row for the second selector); no earlier item is selected |
| Resolve.SelectorDescription | lib/scraping/scrape_regular_customers.py:162-170 | A selector gives something exactly when it finds an item whose cleaned value is present and at most 400 characters long, and then gives that cleaned value; a longer value is passed over, not cut |
| Resolve.LabelledRow | lib/scraping/scrape_regular_customers.py:172-181 | The first `.pi-data` row whose label contains "description" and whose cleaned value is present and at most 400 characters long; no earlier row is accepted |
| Resolve.LabelledDescription | lib/scraping/scrape_regular_customers.py:172-181 | Gives something exactly when some labelled row is accepted, and then the short cleaned value of the first one |
| Resolve.BoxDescription | lib/scraping/scrape_regular_customers.py:158-181 | An infobox description is a clean value of one of the items, at most 400 characters long; the `[data-source='description']` selector wins, then the `.pi-data` selector, then the rows labelled "description" |
| Resolve.ParagraphCut | lib/scraping/scrape_regular_customers.py:188-189 | `txt[:400]` of a describing paragraph: 1 to 400 characters and a prefix of the cleaned text |
| Resolve.DescribingParagraph | lib/scraping/scrape_regular_customers.py:183-189 | The first direct paragraph of the content whose cleaned text is longer than 10 characters and lacks "This article is about"; no earlier paragraph qualifies |
| Resolve.ParagraphDescription | lib/scraping/scrape_regular_customers.py:183-189 | The paragraph fallback gives something exactly when some paragraph qualifies, and then the cut text of the first one |
| Resolve.RightCardDescription | lib/scraping/scrape_regular_customers.py:154-190 | Absent or 1 to 400 characters; an infobox description, when there is one, is the result; otherwise the paragraph fallback is, or nothing without a content block |
| Resolve.InfoboxDescriptionWins | lib/scraping/scrape_regular_customers.py:156-181 | An accepted infobox description is the result whatever the content block holds |
| Resolve.LongSelectedFallsThrough | lib/scraping/scrape_regular_customers.py:166-170 | A selected item whose cleaned value is longer than 400 characters is passed over: the selector gives nothing and the result is never that value |
| WikiUrls.BeforeHash | lib/scraping/scrape_regular_customers.py:240 | `href.split("#")[0]` has no `#` and is a prefix of the link |
| WikiUrls.BeforeHashArticle | lib/scraping/scrape_regular_customers.py:240 | Stripping the fragment keeps the `/wiki/` prefix |
| WikiUrls.FullUrlShape | lib/scraping/scrape_regular_customers.py:238-245 | A `/wiki/` link without `:` that is not a hub becomes an article address: site address, `/wiki/`, no `:`, no `#` |
| Discovery.WikiCount | lib/scraping/scrape_regular_customers.py:257 | The count is the number of positions holding a link that `a[href^='/wiki/']` selects, hence at most the number of links |
| Discovery.WikiCountZero | lib/scraping/scrape_regular_customers.py:257 | The count is zero exactly when no link points into the wiki |
| Discovery.WindowEnd | lib/scraping/scrape_regular_customers.py:224-232 | The walk from a heading stops at the next `h2`-`h4`, at the end of the content or after 30 siblings, and passes no heading |
| Discovery.KeptLink | lib/scraping/scrape_regular_customers.py:236-252 | The link tests in source order return exactly `KeptUrl` |
| Discovery.AddKeptLinks | lib/scraping/scrape_regular_customers.py:236-252 | The link loop adds exactly the addresses of the kept links |
| Discovery.HarvestSibling | lib/scraping/scrape_regular_customers.py:234-269 | A list sibling gives its kept links; a paragraph gives them only with at least five wiki links |
| Discovery.WalkSection | lib/scraping/scrape_regular_customers.py:224-269 | The bounded sibling walk adds exactly the contributions of the siblings before `WindowEnd` |
| Discovery.DiscoverRegularCustomerUrls | lib/scraping/scrape_regular_customers.py:204-271 | `[]` without a content block; otherwise strictly sorted, so duplicate-free, with exactly the addresses collected under the wanted headings |
| Discovery.LinkUrlsIff | lib/scraping/scrape_regular_customers.py:236-252 | An address is collected from a link list exactly when some link of it is kept with that address |
| Discovery.BlockUrlsIff | lib/scraping/scrape_regular_customers.py:234-269 | A sibling contributes exactly the kept links of a list or of a paragraph with five or more wiki links |
| Discovery.SectionWindowIff | lib/scraping/scrape_regular_customers.py:212-269 | A heading contributes an address exactly when it is a wanted heading and a sibling in its window offers it |
| Discovery.DiscoveredIff | lib/scraping/scrape_regular_customers.py:212-271 | An address is discovered exactly when it has an origin: a wanted heading and a harvested sibling within its window |
| Discovery.DiscoveredArticle | lib/scraping/scrape_regular_customers.py:238-252 | Every discovered address is the site address plus `/wiki/...`, with no `:` and no `#`, and is neither `/wiki/Regular_Customers` nor `/wiki/Customers` |
| Discovery.OriginBounds | lib/scraping/scrape_regular_customers.py:225-232 | A contributing sibling is at most 30 siblings after its heading, with no heading in between |
| Discovery.OriginLink | lib/scraping/scrape_regular_customers.py:234-269 | Behind every address is a wiki link without `:` in a list or a paragraph with five or more wiki links, whose text is not blank and not a section name |
| Discovery.ShortParagraph | lib/scraping/scrape_regular_customers.py:257-258 | A paragraph with fewer than five wiki links contributes nothing |
| Wrappers.CollectIff | lib/scraping/scrape_regular_customers.py:252 | The set filled by `urls.add` holds exactly the values added |
| Discovery.UnionIff | lib/scraping/scrape_regular_customers.py:225-269 | The union over a window of siblings holds exactly what one of them contributes |
| Legacy.WikiArticleIff | lib/scraping/scrape.py:9-10 | `_is_wiki_article` holds exactly when the link starts with `/wiki/` and has no `:` |
| Legacy.TableUrlsIff | lib/scraping/scrape.py:24-37 | An address is collected exactly when some table link yields it |
| Legacy.DiscoverTableLinks | lib/scraping/scrape.py:12-39 | `[]` without a content block; otherwise strictly sorted, so duplicate-free, with exactly the collected addresses |
| Legacy.YieldsArticle | lib/scraping/scrape.py:24-37 | A table link yields only an article address: `/wiki/`, no `:`, no `#`, not a hub |
| Legacy.TableUrlsArticle | lib/scraping/scrape.py:24-39 | Every collected address is an article address |
| Mementos.FirstWord | lib/scraping/scrape_regular_customers.py:324 | The first position of the word "Serve" bounded by `\b`, ignoring case; none before it |
| Mementos.FirstPlusDigit | lib/scraping/scrape_regular_customers.py:310 | The first `+` followed by a digit; none before it |
| Mementos.Stars | lib/scraping/scrape_regular_customers.py:308-312 | The star bonus is absent exactly when the row has no `+` followed by a digit |
| Mementos.StarsNumeral | lib/scraping/scrape_regular_customers.py:308-312 | A bonus `+` followed by digits and commas, after text without a `+`-digit token, reads as its digits with the commas removed, whatever non-numeral follows it |
| Mementos.StarsThousands | lib/scraping/scrape_regular_customers.py:308-312 | The bonus in "Serve +1,200 stars" reads 1200 |
| Mementos.StarsDecimal | lib/scraping/scrape_regular_customers.py:308-312 | A bonus `+n` after text without a `+`-digit token is read back as `n`, whatever non-numeral follows it |
| Mementos.BoldName | lib/scraping/scrape_regular_customers.py:315-320 | The name from a bold text is the cleaned text of one of the row's bold elements, at most 80 characters long |
| Mementos.BoldNameFirst | lib/scraping/scrape_regular_customers.py:315-320 | The first short bold text is taken, whatever follows it |
| Mementos.FirstBoldName | lib/scraping/scrape_regular_customers.py:315-320 | The loop over the bold elements returns exactly `BoldName` |
| Mementos.BeforeServe | lib/scraping/scrape_regular_customers.py:324 | `re.split(r"\bServe\b", …, maxsplit=1)[0]`: the whole text, or the prefix ending where the first word "Serve" starts, with no word "Serve" starting inside it |
| Mementos.PickName | lib/scraping/scrape_regular_customers.py:314-330 | A name is clean and 1 to 80 characters long; a short bold text always wins; without one, the name is the cleaned text before the first word "Serve", present exactly when that text is not blank and at most 80 characters |
| Mementos.RowName | lib/scraping/scrape_regular_customers.py:314-327 | The name steps return exactly `PickName` |
| Mementos.FindInLine | lib/scraping/scrape_regular_customers.py:334 | `.*?w`: the first occurrence of `w`, ignoring case, reached without passing a line break; none earlier on that line |
| Mementos.FirstServeTimes | lib/scraping/scrape_regular_customers.py:334 | The leftmost start of `Serve .*?times`; no earlier position starts a match |
| Mementos.TimesEnd | lib/scraping/scrape_regular_customers.py:334 | The match of `Serve .*?times\.?` ends right after the first "times" on the line, one character later exactly when a `.` follows it |
| Mementos.RequirementEnd | lib/scraping/scrape_regular_customers.py:334 | The optional `Sell .*?\.` part only extends the match, which stays inside the text |
| Mementos.RequirementSpan | lib/scraping/scrape_regular_customers.py:334 | The requirement match starts at a `Serve .*?times` with none further left, ends where `RequirementEnd` says, and is absent exactly when there is none |
| Mementos.Requirement | lib/scraping/scrape_regular_customers.py:332-340 | A requirement is present exactly when the pattern matches (the match starts with "Serve", so it is never blank); it is the cleaned matched text |
| Mementos.FallbackUnused | lib/scraping/scrape_regular_customers.py:334-340 | The fallback pattern matches exactly when the first one does, at the same start, and its match is a prefix of the first one's, so the `else` branch never sets a requirement |
| Mementos.NoTimesNoRequirement | lib/scraping/scrape_regular_customers.py:332-340 | A row whose text contains "times" nowhere, in any letter case, not even inside another word, has no requirement |
| Mementos.SometimesHasRequirement | lib/scraping/scrape_regular_customers.py:334 | The pattern has no word boundary around "times": the row text "Serve guests sometimes" has a requirement |
| Mementos.ReplaceAllAbsent | lib/scraping/scrape_regular_customers.py:345 | `str.replace` leaves a text without the pattern unchanged |
| Mementos.ReplaceAllKeepsNoPlusDigit | lib/scraping/scrape_regular_customers.py:350 | Replacing the name by a space never creates a `+` followed by a digit |
| Mementos.DropPlusNumbersGone | lib/scraping/scrape_regular_customers.py:347 | After `re.sub(r"\+\d[\d,]*", " ", …)` no `+` followed by a digit is left |
| Mementos.DraftNoPlusDigit | lib/scraping/scrape_regular_customers.py:343-350 | The description before cleaning holds no star bonus token |
| Mementos.Description | lib/scraping/scrape_regular_customers.py:343-353 | A description is absent exactly when the text left after the removals is blank; otherwise it is the cleaned text, cut to its first 240 characters |
| Mementos.Describe | lib/scraping/scrape_regular_customers.py:343-353 | The `desc` rewriting steps return exactly `Description` |
| Mementos.RowMemento | lib/scraping/scrape_regular_customers.py:295-364 | A row gives a memento exactly when it has no header cell, its cleaned text has "Serve" or "Sell" as a word (any letter case) and `PickName` finds a name; the memento carries that name, its slug as id, the row's first bonus as stars, `Requirement` of the text and `Description` of the text without name and requirement, and the fixed tags, source and share reward |
| Mementos.RowMementoShape | lib/scraping/scrape_regular_customers.py:355-364 | A row's memento has a clean name of 1 to 80 characters, a slug id, a description of at most 240 characters and the fixed fields |
| Mementos.ParseRow | lib/scraping/scrape_regular_customers.py:295-364 | The row steps return exactly `RowMemento` |
| Mementos.SomesOrder | lib/scraping/scrape_regular_customers.py:293-366 | Appending the present results keeps exactly those results, in row order |
| Mementos.MementoHeading | lib/scraping/scrape_regular_customers.py:276 | The heading found is a "Memento" or "Mementos" heading; none exactly when the page has neither |
| Mementos.MementoHeadingPreferred | lib/scraping/scrape_regular_customers.py:276 | A "Memento" heading is used whenever the page has one |
| Mementos.MementoTable | lib/scraping/scrape_regular_customers.py:275-286 | The table is the first non-navbox table within 120 nodes after the heading whose cleaned text has "Serve"/"Sell" as a word and a `+` followed by a digit |
| Mementos.SignatureFirst | lib/scraping/scrape_regular_customers.py:280-284 | No table the walk passes before the chosen one has the signature |
| Mementos.FindMementoTable | lib/scraping/scrape_regular_customers.py:275-286 | The table search returns exactly `MementoTable` |
| Mementos.Mementos | lib/scraping/scrape_regular_customers.py:288-291 | `[]` when there is no Memento/Mementos heading or no table with the signature |
| Mementos.MementosFromRows | lib/scraping/scrape_regular_customers.py:295-366 | Each memento comes from a row of the table, in row order, and every row that describes a memento gives one |
| Mementos.MementoShape | lib/scraping/scrape_regular_customers.py:355-364 | Every memento has a clean name of 1 to 80 characters, `id == slugify(name)`, a description of at most 240 characters, tags `["customer_gift"]`, source `"customer_gift"` and no share reward |
| Mementos.ParseRows | lib/scraping/scrape_regular_customers.py:293-366 | The row loop returns exactly the present row results, in order |
| Mementos.ParseMementos | lib/scraping/scrape_regular_customers.py:288-366 | `parse_mementos` returns exactly `Mementos` |
| Customer.CustomerName | lib/scraping/scrape_regular_customers.py:374-378 | The name is the cleaned `<h1>`, else the cleaned `<title>`, else "Unknown" without a title; absent exactly when there is no usable `<h1>` and the title is blank |
| Customer.ResolveName | lib/scraping/scrape_regular_customers.py:374-378 | The name steps return exactly `CustomerName` |
| Customer.FirstFood | lib/scraping/scrape_regular_customers.py:400-403 | The food id is a slug; it is absent exactly when the food value is absent or empty or its first segment (after `·` and `•` become `,`) is blank, as in `" , Carrot"` |
| Customer.FirstFoodHead | lib/scraping/scrape_regular_customers.py:400-403 | The food id is the first slug `split_list` gives for the same value: only the first item is kept |
| Customer.FirstFoodOfList | lib/scraping/scrape_regular_customers.py:400-403 | A food list written with `,`, `·` or `•` gives the slug of its first item |
| Customer.FoodId | lib/scraping/scrape_regular_customers.py:400-403 | The food steps return exactly `FirstFood` |
| Customer.CustomerTags | lib/scraping/scrape_regular_customers.py:405-407 | The tags start with `customer`, `restaurant`, `regular`; a fourth, the slug of where the customer lives, is there exactly when that is known |
| Customer.BuildTags | lib/scraping/scrape_regular_customers.py:405-407 | The tag steps return exactly `CustomerTags` |
| Customer.CustomerRecord | lib/scraping/scrape_regular_customers.py:370-432 | Each field is the value of its own function: name `CustomerName` and id its slug, `livesIn` and the tags from it, the weight through `ParseInt`, the food id through `FirstFood`, the four lists through `SplitList`, the description from `RightCardDescription` with `""` in place of none, and `Mementos`; rating, recipes, customers, booth owner and performer empty; the source address attached |
| Customer.CustomerRecordShape | lib/scraping/scrape_regular_customers.py:370-432 | The record's id is a slug, a name is never empty, there is a fourth tag exactly when the place is known, and the description is at most 400 characters |
| Customer.TitleOnlyId | lib/scraping/scrape_regular_customers.py:374-380 | A page named only by its title gets the title's slug as id |
| Customer.NameFallbacks | lib/scraping/scrape_regular_customers.py:374-380 | Without `<h1>` and `<title>` the name is "Unknown"; with a blank title the name is absent and the id is `""` |
| Customer.NoMementoHeading | lib/scraping/scrape_regular_customers.py:276-278 | A page without a Memento/Mementos heading gives a record without mementos |
| Customer.ScrapeCustomer | lib/scraping/scrape_regular_customers.py:370-432 | `scrape_customer` after the fetch returns exactly `CustomerRecord` |

## Left out

- HTTP fetching (`requests.get`, headers, timeouts) is I/O. Pages are input values, and a failed fetch is not modelled.
- The `main` runner is left out: sleeps, printing, writing JSON, the cap on how many URLs it visits, and the `try`/`except` around each URL. It is orchestration with no logic of its own.
- HTML parsing and CSS selectors are left out. Each query becomes a view in `Page.Page`: a node sequence in document order, the infobox items, the children of the content block, and the `<h1>` and `<title>` strings. A table's rows and a row's cells, bold texts and links are taken as given. This includes rows of nested tables that `find_all("tr")` would also return.
- `Discovery.DiscoverRegularCustomerUrls` takes its headings from the direct children of the content block. `content.find_all(["h2","h3","h4"])` also finds headings nested deeper, but their siblings are not children of the content block.
- Text is ASCII. `str.lower()`, `\s`, `\d`, `\b` and `re.I` are modelled on ASCII letters, digits and whitespace. Unicode case folding, Unicode digits and Unicode word characters are out of scope.
- The `re` engine is not modelled in general. Only the patterns the scraper uses are written as scanners: the label patterns, the anchored heading pattern, `\bServe\b|\bSell\b`, `\+\d`, `\+(\d[\d,]*)`, `\d[\d,]*` and the requirement pattern.
- `urljoin(BASE, href)` is modelled as `BASE + href`. The two differ when the path holds `.` or `..` segments, which `urljoin` resolves (`/wiki/../A` becomes `BASE + "/A"`). The model keeps such a link as written.
- `Mementos.Requirement` has no branch for the fallback pattern `(Serve .*?times\.?)`. `Mementos.FallbackUnused` proves that this pattern matches only where the first pattern already matched, so the branch can never set a requirement.
- `Mementos.DraftNoPlusDigit`: the absence of a `+`-digit token is proved for the description before `clean` and the 240-character cut, not for the final description.
- `Mementos.RequirementEnd`: only the first "Sell " after the times clause is tried. The comment on the function explains why a later "Sell " on the same line cannot succeed where the first failed; this is argued, not proved.
