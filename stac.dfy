/** The two entry points of the package: `create_collection`, which looks a
    definition up by id and builds its collection, and `create_item`, which
    routes an asset href to the first definition that decomposes it. */
module Stac {
  import opened Base
  import opened Text
  import opened HrefFormat
  import opened YearField
  import opened Classifications
  import opened Metadata

  // ---------------------------------------------------------------------------
  // create_collection

  /** `create_collection`: a registry with the default href format, the
      definition registered under `id`, and its collection. */
  method CreateCollection(id: CollectionId, media: Option<MediaType>, sample: Option<string>, env: Environment)
    returns (r: Result<Collection>)
    ensures r == CollectionOf(id, RowsFor(env, id), env.slugify, media, sample, env.sniff)
  {
    DefaultHrefFormatValid();
    // The default format is valid and both ids are registered, so neither
    // the registry nor the lookup fails here.
    var created := CollectionRegistry.Create(DefaultHrefFormat, env);
    var registry := created.value;
    GetConfigFound(registry, env, id);
    var config := registry.GetConfig(id).value;
    r := config.BuildCollection(media, sample, env.sniff);
  }

  /** A collection built with an explicit media type has the requested id,
      and its `data` item asset carries that media type. */
  lemma CollectionIdAndMediaType(id: CollectionId, media: MediaType, sample: Option<string>, env: Environment)
    requires CollectionOf(id, RowsFor(env, id), env.slugify, Some(media), sample, env.sniff).Ok?
    ensures var c := CollectionOf(id, RowsFor(env, id), env.slugify, Some(media), sample, env.sniff).value;
      && c.id == id.Value()
      && "data" in c.itemAssets && c.itemAssets["data"].mediaType == Some(media)
  {
  }

  /** With an explicit media type, a collection is built exactly when the
      table loads and its renders can be built. */
  lemma CollectionBuiltWithMediaType(id: CollectionId, media: MediaType, sample: Option<string>, env: Environment)
    ensures CollectionOf(id, RowsFor(env, id), env.slugify, Some(media), sample, env.sniff).Ok? <==>
      && LoadAll(RowsFor(env, id), env.slugify).Ok?
      && Renders.Renders(id, LoadAll(RowsFor(env, id), env.slugify).value).Ok?
  {
  }

  /** A collection is built for an empty table with an explicit media
      type: its renders are drawn with an empty colormap. */
  lemma EmptyTableCollection(id: CollectionId, media: MediaType, sample: Option<string>,
                             slugify: string -> string, sniff: string -> Result<MediaType>)
    ensures CollectionOf(id, [], slugify, Some(media), sample, sniff).Ok?
  {
  }

  /** Without a media type and without a sample href, no collection is
      built, whatever the tables hold. */
  lemma CollectionNeedsMediaType(id: CollectionId, sample: Option<string>, env: Environment)
    requires !Given(sample)
    ensures CollectionOf(id, RowsFor(env, id), env.slugify, None, sample, env.sniff) == Err(MediaTypeRequired)
  {
  }

  // ---------------------------------------------------------------------------
  // create_item, as written

  /** No outcome before index `k` is a result. */
  predicate NoneBefore<T>(outcomes: seq<Result<Option<T>>>, k: int)
    requires k <= |outcomes|
  {
    forall j :: 0 <= j < k ==> outcomes[j] == Ok(None)
  }

  /** The loop of `create_item` over the outcomes of `parse_href` under the
      registered definitions, in order: the first outcome that is a result
      gives its index, the first error ends the loop with that error, and
      with neither there is no matching collection. */
  function FirstMatch<T>(outcomes: seq<Result<Option<T>>>, href: string): (r: Result<nat>)
    ensures r.Ok? ==>
      && r.value < |outcomes| && outcomes[r.value].Ok? && outcomes[r.value].value.Some?
      && NoneBefore(outcomes, r.value)
    ensures r.Err? ==>
      || (NoneBefore(outcomes, |outcomes|) && r.error == NoMatchingCollection(href))
      || (exists k :: 0 <= k < |outcomes| && NoneBefore(outcomes, k) && outcomes[k] == Err(r.error))
    ensures NoneBefore(outcomes, |outcomes|) ==> r == Err(NoMatchingCollection(href))
  {
    if outcomes == [] then Err(NoMatchingCollection(href))
    else if outcomes[0].Err? then Err(outcomes[0].error)
    else if outcomes[0].value.Some? then Ok(0)
    else
      var rest := FirstMatch(outcomes[1..], href);
      assert forall j :: 1 <= j <= |outcomes[1..]| ==> outcomes[j] == outcomes[1..][j - 1];
      if rest.Err? then
        assert rest.error != NoMatchingCollection(href) ==>
          exists k :: 0 <= k < |outcomes| && NoneBefore(outcomes, k) && outcomes[k] == Err(rest.error) by {
          if rest.error != NoMatchingCollection(href) {
            var k :| 0 <= k < |outcomes[1..]| && NoneBefore(outcomes[1..], k) && outcomes[1..][k] == Err(rest.error);
            assert NoneBefore(outcomes, k + 1);
          }
        }
        Err(rest.error)
      else
        Ok(rest.value + 1)
  }

  /** What `create_item` produces: the registry validates the format, the
      definitions are tried in registry order (annual, then change), and the
      first one whose `parse_href` gives a result creates the item. */
  function StacItem(href: string, format: Template, env: Environment): Result<Item> {
    var validated :- ValidateHrefFormat(format);
    var outcome := ParseHref(validated, href);
    var k :- FirstMatch([outcome, outcome], href);
    ItemOf(RowsFor(env, if k == 0 then Annual else Change), env.slugify, validated, href, env.sniff)
  }

  /** `create_item`. Since `parse_href` either fails or gives a result, the
      loop over the definitions ends at the first one. */
  method CreateItem(href: string, format: Template, env: Environment) returns (r: Result<Item>)
    ensures r == StacItem(href, format, env)
  {
    var registry :- CollectionRegistry.Create(format, env);
    var configs := registry.Values();
    var parsed :- ParseHref(configs[0].hrefFormat, href);
    r := configs[0].CreateItem(href, env.sniff);
  }

  /** Both definitions hold the same format, and `parse_href` either fails
      or gives a result, so the annual definition is the one that creates
      every item. */
  lemma AnnualDefinitionChosen(href: string, format: Template, env: Environment)
    ensures StacItem(href, format, env) ==
      if ValidateHrefFormat(format).Err? then Err(ValidateHrefFormat(format).error)
      else ItemOf(env.annualRows, env.slugify, format, href, env.sniff)
  {
  }

  /** The format is validated before the href is looked at. */
  lemma InvalidFormatFirst(href: string, format: Template, env: Environment)
    requires ValidateHrefFormat(format).Err?
    ensures StacItem(href, format, env) == Err(MissingRequiredParameters(ValidateHrefFormat(format).error.missing))
  {
  }

  /** An href the format does not describe surfaces the error of
      `parse_href`; the loop never ends with "no matching collection". */
  lemma UnmatchedHref(href: string, format: Template, env: Environment)
    ensures ValidateHrefFormat(format).Ok? && Parse(format, href).None? ==>
      StacItem(href, format, env) == Err(HrefNotParsed(href, format))
    ensures var outcome := ParseHref(format, href);
      FirstMatch([outcome, outcome], href) != Err(NoMatchingCollection(href))
  {
    if ValidateHrefFormat(format).Ok? {
      ParseHrefValidated(format, href);
    }
  }

  /** The item's collection is decided by the year field alone: the change
      collection exactly when it has the change form. */
  lemma ItemCollectionFromYear(href: string, format: Template, env: Environment)
    requires StacItem(href, format, env).Ok?
    ensures Parse(format, href).Some? && "year" in Parse(format, href).value.vals
    ensures var year := Parse(format, href).value.vals["year"];
      StacItem(href, format, env).value.collection == Change <==> ChangeFormat(year).Some?
  {
    AnnualDefinitionChosen(href, format, env);
    var year := Parse(format, href).value.vals["year"];
    FormatsExclusive(year);
  }

  /** The test asset of each collection: its id, collection and item datetime,
      once the asset's media type is known and the annual table loads. */
  lemma TestItems(env: Environment)
    requires env.sniff(DefaultHref("v2", "2000", "40N_080W")).Ok?
    requires env.sniff(DefaultHref("v2", "2000-2020change", "40N_080W")).Ok?
    requires LoadAll(env.annualRows, env.slugify).Ok?
    ensures var item := StacItem(DefaultHref("v2", "2000", "40N_080W"), DefaultHrefFormat, env);
      && item.Ok?
      && item.value.id == Join("_", ["v2", "2000", "40N_080W"])
      && item.value.collection == Annual
      && item.value.datetime == DateTime(2000, 1, 1, 0, 0, 0)
    ensures var item := StacItem(DefaultHref("v2", "2000-2020change", "40N_080W"), DefaultHrefFormat, env);
      && item.Ok?
      && item.value.id == Join("_", ["v2", "2000-2020change", "40N_080W"])
      && item.value.collection == Change
      && item.value.datetime == DateTime(2020, 1, 1, 0, 0, 0)
      && item.value.start == Some(DateTime(2000, 1, 1, 0, 0, 0))
      && item.value.end == Some(DateTime(2020, 12, 31, 23, 59, 59))
  {
    DefaultHrefFormatValid();
    ParseAnnualTestHref();
    ParseChangeTestHref();
    AnnualDefinitionChosen(DefaultHref("v2", "2000", "40N_080W"), DefaultHrefFormat, env);
    AnnualDefinitionChosen(DefaultHref("v2", "2000-2020change", "40N_080W"), DefaultHrefFormat, env);
  }

  /** An item of the change collection carries the classes of the annual
      table: the change asset of the test data is one. */
  lemma ChangeItemHasAnnualClasses(env: Environment)
    requires env.sniff(DefaultHref("v2", "2000-2020change", "40N_080W")).Ok?
    requires LoadAll(env.annualRows, env.slugify).Ok?
    ensures var item := StacItem(DefaultHref("v2", "2000-2020change", "40N_080W"), DefaultHrefFormat, env);
      && item.Ok?
      && item.value.collection == Change
      && item.value.classes == LoadAll(env.annualRows, env.slugify).value
  {
    DefaultHrefFormatValid();
    ParseChangeTestHref();
    AnnualDefinitionChosen(DefaultHref("v2", "2000-2020change", "40N_080W"), DefaultHrefFormat, env);
  }

  // ---------------------------------------------------------------------------
  // create_item, routed by the decomposed href

  /** An item created by the definition of the collection its href
      belongs to. */
  function RoutedItem(href: string, format: Template, env: Environment): (r: Result<Item>)
    ensures r.Ok? ==> LoadAll(RowsFor(env, r.value.collection), env.slugify) == Ok(r.value.classes)
    ensures r.Ok? <==>
      && ValidateHrefFormat(format).Ok?
      && ParseHref(format, href).Ok?
      && env.sniff(href).Ok?
      && LoadAll(RowsFor(env, ParseHref(format, href).value.value.collection), env.slugify).Ok?
    ensures r.Ok? ==> r.value.collection == ParseHref(format, href).value.value.collection
  {
    var validated :- ValidateHrefFormat(format);
    var parsed :- ParseHref(validated, href);
    var collection := parsed.value.collection;
    var item := ItemOf(RowsFor(env, collection), env.slugify, validated, href, env.sniff);
    assert item.Ok? ==> item.value.collection == collection;
    item
  }

  /** Routed, the change asset of the test data is created by the change
      definition and carries the classes of the change table. */
  lemma RoutedChangeItem(env: Environment)
    requires env.sniff(DefaultHref("v2", "2000-2020change", "40N_080W")).Ok?
    requires LoadAll(env.changeRows, env.slugify).Ok?
    ensures var item := RoutedItem(DefaultHref("v2", "2000-2020change", "40N_080W"), DefaultHrefFormat, env);
      && item.Ok?
      && item.value.collection == Change
      && item.value.classes == LoadAll(env.changeRows, env.slugify).value
  {
    DefaultHrefFormatValid();
    ParseChangeTestHref();
  }

  /** `create_item` with the definition chosen by the collection that
      `parse_href` reports. */
  method CreateItemRouted(href: string, format: Template, env: Environment) returns (r: Result<Item>)
    ensures r == RoutedItem(href, format, env)
  {
    var registry :- CollectionRegistry.Create(format, env);
    var parsed :- ParseHref(registry.hrefFormat, href);
    GetConfigFound(registry, env, parsed.value.collection);
    var config := registry.GetConfig(parsed.value.collection).value;
    r := config.CreateItem(href, env.sniff);
  }

  /** Routing changes only the classes: on annual hrefs both agree, and
      otherwise the items differ at most in their classes. */
  lemma RoutedAgrees(href: string, format: Template, env: Environment)
    ensures StacItem(href, format, env).Ok? && StacItem(href, format, env).value.collection == Annual ==>
      RoutedItem(href, format, env) == StacItem(href, format, env)
    ensures RoutedItem(href, format, env).Ok? && StacItem(href, format, env).Ok? ==>
      RoutedItem(href, format, env).value.(classes := []) == StacItem(href, format, env).value.(classes := [])
  {
    AnnualDefinitionChosen(href, format, env);
  }
}
