/**
  The record of one regular customer (`scrape_customer` in
  scrape_regular_customers.py), built from a page that has already been
  fetched and parsed.
*/
module Customer {
  import opened Wrappers
  import opened Text
  import opened Page
  import opened Resolve
  import opened Mementos

  /** The requirements of a customer; rating, recipes and customers are
      always empty. */
  datatype Requirements = Requirements(
    rating: Option<nat>,
    recipes: seq<string>,
    facilities: seq<string>,
    letters: seq<string>,
    customers: seq<string>,
    flowers: seq<string>)

  datatype Customer = Customer(
    id: string,
    name: Option<string>,
    tags: seq<string>,
    livesIn: Option<string>,
    appearanceWeight: Option<nat>,
    requiredFoodId: Option<string>,
    dishesOrderedIds: seq<string>,
    customerDescription: string,
    requirements: Requirements,
    mementos: seq<Memento>,
    boothOwner: Option<string>,
    performer: Option<string>,
    sourceUrl: string)

  /** The tags every customer carries, before the place it lives in. */
  const BaseTags: seq<string> := ["customer", "restaurant", "regular"]

  const UnknownName := "Unknown"

  /** The name: the cleaned `<h1>`, else the cleaned `<title>`, else
      "Unknown" when the page has no title at all. A title that is present
      but blank leaves the name absent. */
  function CustomerName(p: Page): (r: Option<string>)
    ensures CleanText(p.h1).Some? ==> r == CleanText(p.h1)
    ensures CleanText(p.h1).None? && p.title.Some? ==> r == CleanText(p.title)
    ensures CleanText(p.h1).None? && p.title.None? ==> r == Some(UnknownName)
    ensures r.None? <==> CleanText(p.h1).None? && p.title.Some? && CleanText(p.title).None?
  {
    var fromH1 := CleanText(p.h1);
    if fromH1.Some? then fromH1
    else if p.title.None? then Some(UnknownName)
    else CleanText(p.title)
  }

  /** `requiredFoodId`: the slug of the first item of the food list, which
      may be written with `,`, `·` or `•` between items; absent when the value
      is absent or empty or its first item is blank. */
  function FirstFood(food: Option<string>): (r: Option<string>)
    ensures r.Some? ==> IsSlug(r.value)
    ensures food.None? ==> r.None?
    ensures food.Some? ==> (r.None? <==> food.value == [] || AllSpace(Split(ReplaceDots(food.value), ',')[0]))
  {
    if food.None? || food.value == [] then None
    else
      var piece := Split(ReplaceDots(food.value), ',')[0];
      var first := Strip(piece);
      StripEmpty(piece);
      if first == [] then None else Some(Slugify(Some(first)))
  }

  /** The food id is the first slug the same value gives as a list: only
      the first item is kept. */
  lemma FirstFoodHead(food: string)
    requires FirstFood(Some(food)).Some?
    ensures SplitList(Some(food)) != [] && SplitList(Some(food))[0] == FirstFood(Some(food)).value
  {
    var parts := Split(ReplaceDots(food), ',');
    assert SlugPieces(parts) == [Slugify(Some(Strip(parts[0])))] + SlugPieces(parts[1..]);
  }

  /** A list of items gives the slug of its first item, whatever the
      delimiter. */
  lemma FirstFoodOfList(items: seq<string>, d: char)
    requires IsListDelimiter(d) && |items| >= 1
    requires forall k, i :: 0 <= k < |items| && 0 <= i < |items[k]| ==> !IsListDelimiter(items[k][i])
    requires !AllSpace(items[0])
    ensures FirstFood(Some(Join(items, [d]))) == Some(Slugify(Some(Strip(items[0]))))
  {
    var s := Join(items, [d]);
    assert s != [] by {
      if |items| > 1 {
        assert s == items[0] + [d] + Join(items[1..], [d]);
      } else {
        assert s == items[0];
      }
    }
    ReplaceDotsJoin(items, d);
    forall k | 0 <= k < |items|
      ensures ',' !in items[k]
    {
      assert forall i :: 0 <= i < |items[k]| ==> items[k][i] != ',';
    }
    SplitJoin(items, ',');
    StripEmpty(items[0]);
  }

  /** The tags: the three fixed ones, then the slug of the place the
      customer lives in when it is known. */
  function CustomerTags(livesIn: Option<string>): (r: seq<string>)
    ensures 3 <= |r| <= 4 && r[..3] == BaseTags
    ensures |r| == 3 <==> livesIn.None? || livesIn.value == []
    ensures |r| == 4 ==> r[3] == Slugify(livesIn)
  {
    if livesIn.Some? && livesIn.value != [] then BaseTags + [Slugify(livesIn)] else BaseTags
  }

  /** The record `scrape_customer` returns for page `p` fetched from `url`. */
  function CustomerRecord(p: Page, url: string): (c: Customer)
    ensures c.name == CustomerName(p) && c.id == Slugify(c.name)
    ensures c.livesIn == ResolveValue(p, LivesIn) && c.tags == CustomerTags(c.livesIn)
    ensures c.appearanceWeight == ParseInt(ResolveValue(p, AppearanceWeight))
    ensures c.requiredFoodId == FirstFood(ResolveValue(p, RequiredFood))
    ensures c.dishesOrderedIds == SplitList(ResolveValue(p, DishesOrdered))
    ensures c.requirements.facilities == SplitList(ResolveValue(p, RequiredFacilities))
    ensures c.requirements.letters == SplitList(ResolveValue(p, RequiredLetters))
    ensures c.requirements.flowers == SplitList(ResolveValue(p, RequiredFlowers))
    ensures RightCardDescription(p).Some? ==> c.customerDescription == RightCardDescription(p).value
    ensures RightCardDescription(p).None? ==> c.customerDescription == ""
    ensures c.mementos == Mementos.Mementos(p.nodes)
    ensures c.requirements.rating.None? && c.requirements.recipes == [] && c.requirements.customers == []
    ensures c.boothOwner.None? && c.performer.None? && c.sourceUrl == url
  {
    var name := CustomerName(p);
    var livesIn := ResolveValue(p, LivesIn);
    Customer(
      Slugify(name),
      name,
      CustomerTags(livesIn),
      livesIn,
      ParseInt(ResolveValue(p, AppearanceWeight)),
      FirstFood(ResolveValue(p, RequiredFood)),
      SplitList(ResolveValue(p, DishesOrdered)),
      RightCardDescription(p).GetOr(""),
      Requirements(None, [], SplitList(ResolveValue(p, RequiredFacilities)),
                   SplitList(ResolveValue(p, RequiredLetters)), [],
                   SplitList(ResolveValue(p, RequiredFlowers))),
      Mementos.Mementos(p.nodes),
      None,
      None,
      url)
  }

  /** What the field functions promise, seen on the record: the id is a
      slug, a name is never empty, there is a fourth tag exactly when the
      place is known, and the description is a short text or "". */
  lemma CustomerRecordShape(p: Page, url: string)
    ensures var c := CustomerRecord(p, url);
      && IsSlug(c.id)
      && (c.name.Some? ==> c.name.value != [])
      && 3 <= |c.tags| <= 4 && c.tags[..3] == BaseTags
      && (|c.tags| == 4 <==> c.livesIn.Some?)
      && |c.customerDescription| <= DescriptionLimit
  {
  }

  /** A page whose only name source is its title still gets an id, the slug
      of the title. */
  lemma TitleOnlyId(p: Page, url: string)
    requires CleanText(p.h1).None? && CleanText(p.title).Some?
    ensures CustomerRecord(p, url).name == CleanText(p.title)
    ensures CustomerRecord(p, url).id == Slugify(CleanText(p.title))
  {
  }

  /** A page with neither heading nor title is named "Unknown"; one whose
      title is blank has no name and the empty id. */
  lemma NameFallbacks(p: Page, url: string)
    requires CleanText(p.h1).None?
    ensures p.title.None? ==> CustomerRecord(p, url).name == Some(UnknownName)
    ensures p.title.Some? && CleanText(p.title).None? ==> CustomerRecord(p, url).name.None? && CustomerRecord(p, url).id == ""
  {
  }

  /** A page without a Memento or Mementos heading gives a record without
      mementos. */
  lemma NoMementoHeading(p: Page, url: string)
    requires forall i :: 0 <= i < |p.nodes| ==> !IsHeadingNamed(p.nodes[i], "Memento") && !IsHeadingNamed(p.nodes[i], "Mementos")
    ensures CustomerRecord(p, url).mementos == []
  {
    assert MementoHeading(p.nodes).None?;
  }

  /** The name steps of `scrape_customer`. */
  method ResolveName(p: Page) returns (name: Option<string>)
    ensures name == CustomerName(p)
  {
    name := CleanText(p.h1);
    if name.None? {
      if p.title.Some? {
        name := CleanText(p.title);
      } else {
        name := Some(UnknownName);
      }
    }
  }

  /** The `requiredFoodId` steps of `scrape_customer`. */
  method FoodId(food: Option<string>) returns (id: Option<string>)
    ensures id == FirstFood(food)
  {
    id := None;
    if food.Some? && food.value != [] {
      var first := Strip(Split(ReplaceDots(food.value), ',')[0]);
      if first != [] {
        id := Some(Slugify(Some(first)));
      }
    }
  }

  /** The tag steps of `scrape_customer`: the fixed tags, then one appended
      for the place. */
  method BuildTags(livesIn: Option<string>) returns (tags: seq<string>)
    ensures tags == CustomerTags(livesIn)
  {
    tags := BaseTags;
    if livesIn.Some? && livesIn.value != [] {
      tags := tags + [Slugify(livesIn)];
    }
  }

  /** `scrape_customer` after the fetch: resolve every field, then assemble
      the record. */
  method ScrapeCustomer(p: Page, url: string) returns (c: Customer)
    ensures c == CustomerRecord(p, url)
  {
    var name := ResolveName(p);
    var id := Slugify(name);

    var livesIn := GetValue(p, LivesIn);
    var weight := GetValue(p, AppearanceWeight);
    var appearanceWeight := ParseInt(weight);
    var food := GetValue(p, RequiredFood);
    var dishesOrdered := GetValue(p, DishesOrdered);
    var facilitiesValue := GetValue(p, RequiredFacilities);
    var flowersValue := GetValue(p, RequiredFlowers);
    var lettersValue := GetValue(p, RequiredLetters);
    var description := RightCardDescription(p);

    var dishes := SplitList(dishesOrdered);
    var facilities := SplitList(facilitiesValue);
    var flowers := SplitList(flowersValue);
    var letters := SplitList(lettersValue);

    var foodId := FoodId(food);
    var tags := BuildTags(livesIn);
    var mementos := ParseMementos(p.nodes);

    c := Customer(id, name, tags, livesIn, appearanceWeight, foodId, dishes,
                  description.GetOr(""),
                  Requirements(None, [], facilities, letters, [], flowers),
                  mementos, None, None, url);
  }
}
