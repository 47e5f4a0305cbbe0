/** The collection definitions of the package: decomposing an asset href into
    an item id, version and dates; choosing the data asset's media type; the
    two collection definitions with their lazily loaded classifications; and
    the registry that holds them under one validated href format. */
module Metadata {
  import opened Base
  import opened Text
  import opened HrefFormat
  import opened YearField
  import opened Classifications
  import opened Renders

  // ---------------------------------------------------------------------------
  // Constants

  /** The location under which the assets are published. */
  const StoragePrefix: string := "https://storage.googleapis.com/earthenginepartners-hansen/GLCLU2000-2020/"

  /** The layout of `DEFAULT_HREF_FORMAT` below a location `prefix`:
      `prefix{version}/{year}/{loc}.tif`. */
  function LayoutFormat(prefix: string): Template {
    [Lit(prefix)] + LayoutFields
  }

  /** The layout after its prefix. */
  const LayoutFields: Template := [Field("version"), Lit("/"), Field("year"), Lit("/"), Field("loc"), Lit(".tif")]

  /** `DEFAULT_HREF_FORMAT`, split into its pieces. */
  const DefaultHrefFormat: Template := LayoutFormat(StoragePrefix)

  /** The temporal extent of both collections. */
  const CollectionStart: DateTime := DateTime(2000, 1, 1, 0, 0, 0)
  const CollectionEnd: DateTime := DateTime(2020, 12, 31, 23, 59, 59)

  /** `ASSET_ROLES`. */
  const AssetRoles: seq<string> := ["data"]

  /** The layout names `version`, `year` and `loc`, in that order, so it
      passes validation. */
  lemma LayoutFormatValid(prefix: string)
    ensures NamedFields(LayoutFormat(prefix)) == ["version", "year", "loc"]
    ensures ValidateHrefFormat(LayoutFormat(prefix)) == Ok(LayoutFormat(prefix))
  {
    var t := LayoutFormat(prefix);
    LayoutNames(prefix);
    assert HasField(t, "version") && HasField(t, "year") by {
      assert t[1] == Field("version") && t[3] == Field("year");
    }
  }

  lemma LayoutNames(prefix: string)
    ensures NamedFields(LayoutFormat(prefix)) == ["version", "year", "loc"]
  {
    NewNamesCons(Lit(prefix), LayoutFields, {});
    LayoutFieldNames();
  }

  lemma LayoutFieldNames()
    ensures NewNames(LayoutFields, {}) == ["version", "year", "loc"]
  {
    var t := LayoutFields;
    var t6: Template := [Lit(".tif")];
    var t5: Template := [Field("loc")] + t6;
    var t4: Template := [Lit("/")] + t5;
    var t3: Template := [Field("year")] + t4;
    var t2: Template := [Lit("/")] + t3;
    assert t == [Field("version")] + t2;
    var s2: set<string> := {"version", "year"};
    var s1: set<string> := {"version"};
    NewNamesCons(Lit(".tif"), [], s2 + {"loc"});
    assert [Lit(".tif")] + [] == t6;
    NewNamesCons(Field("loc"), t6, s2);
    NewNamesCons(Lit("/"), t5, s2);
    assert "year" !in s1 && s1 + {"year"} == s2;
    NewNamesCons(Field("year"), t4, s1);
    NewNamesCons(Lit("/"), t3, s1);
    assert {} + {"version"} == s1;
    NewNamesCons(Field("version"), t2, {});
  }

  lemma DefaultHrefFormatValid()
    ensures NamedFields(DefaultHrefFormat) == ["version", "year", "loc"]
    ensures ValidateHrefFormat(DefaultHrefFormat) == Ok(DefaultHrefFormat)
  {
    LayoutFormatValid(StoragePrefix);
  }

  // ---------------------------------------------------------------------------
  // Decomposing an href

  /** The collection and dates that a year field denotes. */
  datatype Dates = Dates(collection: CollectionId, datetime: DateTime, start: Option<DateTime>, end: Option<DateTime>)

  /** The year branch of `parse_href`. A change span `S-Echange` gives the
      change collection, a start at the beginning of year S, an end at the
      last second of year E and an item datetime at the beginning of year E;
      four digits Y give the annual collection and the beginning of year Y.
      Year 0000 is rejected by `datetime`. */
  function YearDates(v: string): (r: Result<Dates>)
    ensures ChangeFormat(v).Some? ==>
      var s := ChangeFormat(v).value.0;
      var e := ChangeFormat(v).value.1;
      && (r.Ok? <==> s != 0 && e != 0)
      && (r.Ok? ==> r.value == Dates(Change, DateTime(e, 1, 1, 0, 0, 0),
                                      Some(DateTime(s, 1, 1, 0, 0, 0)), Some(DateTime(e, 12, 31, 23, 59, 59))))
      && (r.Err? ==> r.error == YearOutOfRange(0))
    ensures ChangeFormat(v).None? && AnnualFormat(v).Some? ==>
      var y := AnnualFormat(v).value;
      && (r.Ok? <==> y != 0)
      && (r.Ok? ==> r.value == Dates(Annual, DateTime(y, 1, 1, 0, 0, 0), None, None))
      && (r.Err? ==> r.error == YearOutOfRange(0))
    ensures ChangeFormat(v).None? && AnnualFormat(v).None? ==> r == Err(YearNotParsed(v))
  {
    var spec :- InterpretYear(v);
    if spec.ChangeSpan? then
      var start :- MakeDateTime(spec.start, 1, 1, 0, 0, 0);
      var end :- MakeDateTime(spec.end, 12, 31, 23, 59, 59);
      var datetime := MakeDateTime(spec.end, 1, 1, 0, 0, 0).value;
      Ok(Dates(Change, datetime, Some(start), Some(end)))
    else
      var datetime :- MakeDateTime(spec.year, 1, 1, 0, 0, 0);
      Ok(Dates(Annual, datetime, None, None))
  }

  /** The record `parse_href` returns. */
  datatype ParsedHref = ParsedHref(
    id: string,
    version: string,
    collection: CollectionId,
    datetime: DateTime,
    start: Option<DateTime>,
    end: Option<DateTime>)

  /** `parse_href`: the href must match the whole format; the year field then
      decides the collection and dates; the id is the captured values joined
      by `_` in the order their fields first occur. The `None` results of the
      source are never produced. */
  function ParseHref(format: Template, href: string): (r: Result<Option<ParsedHref>>)
    ensures Parse(format, href).None? ==> r == Err(HrefNotParsed(href, format))
    ensures r.Ok? ==> r.value.Some? && Parse(format, href).Some?
    ensures r.Ok? ==>
      var c := Parse(format, href).value;
      var p := r.value.value;
      && WellFormed(c)
      && "year" in c.vals && "version" in c.vals
      && YearDates(c.vals["year"]).Ok?
      && p.id == Join("_", Values(c))
      && p.version == c.vals["version"]
      && Dates(p.collection, p.datetime, p.start, p.end) == YearDates(c.vals["year"]).value
    ensures Parse(format, href).Some? && "year" !in Parse(format, href).value.vals ==>
      r == Err(MissingNamedField("year"))
    ensures Parse(format, href).Some? && "year" in Parse(format, href).value.vals ==>
      var year := Parse(format, href).value.vals["year"];
      YearDates(year).Err? ==> r == Err(YearDates(year).error)
  {
    var parsed := Parse(format, href);
    if parsed.None? then Err(HrefNotParsed(href, format))
    else
      var c := parsed.value;
      ParseSound(format, href);
      if "year" !in c.vals then Err(MissingNamedField("year"))
      else
        var dates :- YearDates(c.vals["year"]);
        if "version" !in c.vals then Err(MissingNamedField("version"))
        else
          Ok(Some(ParsedHref(Join("_", Values(c)), c.vals["version"],
                             dates.collection, dates.datetime, dates.start, dates.end)))
  }

  /** With a validated format, a matching href always has a year and a
      version, so the only errors are a mismatch and a bad year field. */
  lemma ParseHrefValidated(format: Template, href: string)
    requires ValidateHrefFormat(format).Ok?
    ensures Parse(format, href).None? ==> ParseHref(format, href) == Err(HrefNotParsed(href, format))
    ensures Parse(format, href).Some? ==>
      var c := Parse(format, href).value;
      && "year" in c.vals && "version" in c.vals
      && (ParseHref(format, href).Ok? <==> YearDates(c.vals["year"]).Ok?)
      && (ParseHref(format, href).Err? ==> ParseHref(format, href).error == YearDates(c.vals["year"]).error)
  {
    if Parse(format, href).Some? {
      ParseSound(format, href);
      var i :| 0 <= i < |format| && format[i] == Field("year");
      var j :| 0 <= j < |format| && format[j] == Field("version");
      assert format[i].Field? && format[j].Field?;
    }
  }

  /** Substituting values into a format and parsing the result gives back
      the substituted version, the dates of the substituted year field, and
      the id made of the values in field order, when each field is followed
      by a literal that cannot occur in its value. */
  lemma ParseHrefRendered(format: Template, m: map<string, string>)
    requires ValidateHrefFormat(format).Ok?
    requires Covers(format, m) && NonEmptyValues(format, m) && Separable(format, m)
    requires "version" in m && "year" in m && YearDates(m["year"]).Ok?
    ensures ParseHref(format, Render(format, m)).Ok?
    ensures var p := ParseHref(format, Render(format, m)).value.value;
      && p.id == Join("_", FieldValues(format, m))
      && p.version == m["version"]
      && Dates(p.collection, p.datetime, p.start, p.end) == YearDates(m["year"]).value
  {
    var href := Render(format, m);
    NamedFieldsSpec(format);
    ParseRendered(format, m);
    ParseHrefValidated(format, href);
    var c := Parse(format, href).value;
    assert c.vals["year"] == m["year"] && c.vals["version"] == m["version"];
    var r := ParseHref(format, href);
    assert r.Ok?;
  }

  /** An href of the layout below `prefix`. */
  function LayoutHref(prefix: string, version: string, year: string, loc: string): string {
    prefix + (version + ("/" + (year + ("/" + (loc + ".tif")))))
  }

  /** `DEFAULT_HREF_FORMAT` filled with a version, a year field and a tile
      name. */
  function DefaultHref(version: string, year: string, loc: string): string {
    LayoutHref(StoragePrefix, version, year, loc)
  }

  lemma LayoutHrefRendered(prefix: string, version: string, year: string, loc: string)
    ensures var m := map["version" := version, "year" := year, "loc" := loc];
      Covers(LayoutFormat(prefix), m) && Render(LayoutFormat(prefix), m) == LayoutHref(prefix, version, year, loc)
  {
    var m := map["version" := version, "year" := year, "loc" := loc];
    LayoutFieldsRendered(version, year, loc);
    RenderCons(Lit(prefix), LayoutFields, m);
  }

  lemma LayoutFieldsRendered(version: string, year: string, loc: string)
    ensures var m := map["version" := version, "year" := year, "loc" := loc];
      Covers(LayoutFields, m) && Render(LayoutFields, m) == version + ("/" + (year + ("/" + (loc + ".tif"))))
  {
    var t := LayoutFields;
    var m := map["version" := version, "year" := year, "loc" := loc];
    var t6: Template := [Lit(".tif")];
    var t5: Template := [Field("loc")] + t6;
    var t4: Template := [Lit("/")] + t5;
    var t3: Template := [Field("year")] + t4;
    var t2: Template := [Lit("/")] + t3;
    assert t == [Field("version")] + t2;
    assert [Lit(".tif")] + [] == t6;
    RenderCons(Lit(".tif"), [], m);
    RenderCons(Field("loc"), t6, m);
    RenderCons(Lit("/"), t5, m);
    RenderCons(Field("year"), t4, m);
    RenderCons(Lit("/"), t3, m);
    RenderCons(Field("version"), t2, m);
  }

  /** A digit is not a separator of the default format. */
  lemma YearTextHasNoSlash(v: string)
    requires AnnualFormat(v).Some? || ChangeFormat(v).Some?
    ensures '/' !in v
  {
    if AnnualFormat(v).Some? {
      assert forall i :: 0 <= i < |v| ==> IsDecimalDigit(v[i]);
    } else {
      assert forall i :: 0 <= i < 4 ==> IsDecimalDigit(v[..4][i]);
      assert forall i :: 0 <= i < 4 ==> IsDecimalDigit(v[5..9][i]);
      assert forall i :: 0 <= i < |v| ==> v[i] != '/' by {
        forall i | 0 <= i < |v| ensures v[i] != '/' {
          if i < 4 { assert v[i] == v[..4][i]; }
          else if 5 <= i < 9 { assert v[i] == v[5..9][i - 5]; }
          else if i >= 9 { assert v[i] == v[9..][i - 9]; }
        }
      }
    }
  }

  /** Values without the separator that follows them in the layout can be
      recovered from the href. */
  lemma LayoutSeparable(prefix: string, version: string, year: string, loc: string)
    requires version != "" && '/' !in version
    requires year != "" && '/' !in year
    requires loc != ""
    ensures var m := map["version" := version, "year" := year, "loc" := loc];
      Covers(LayoutFormat(prefix), m) && NonEmptyValues(LayoutFormat(prefix), m) && Separable(LayoutFormat(prefix), m)
  {
    var t := LayoutFormat(prefix);
    var m := map["version" := version, "year" := year, "loc" := loc];
    LayoutHrefRendered(prefix, version, year, loc);
    forall i | 0 <= i < |t| && t[i].Field?
      ensures m[t[i].name] != ""
      ensures
        || i == |t| - 1
        || (t[i + 1].Lit? && i + 1 == |t| - 1)
        || (t[i + 1].Lit? && t[i + 1].text != [] && t[i + 1].text[0] !in m[t[i].name])
    {
      assert i == 1 || i == 3 || i == 5;
    }
  }

  /** The fields of the layout in order, with their values. */
  lemma LayoutFieldValues(prefix: string, version: string, year: string, loc: string)
    ensures var m := map["version" := version, "year" := year, "loc" := loc];
      Covers(LayoutFormat(prefix), m) && FieldValues(LayoutFormat(prefix), m) == [version, year, loc]
  {
    LayoutFormatValid(prefix);
    LayoutHrefRendered(prefix, version, year, loc);
  }

  /** An href of the layout: a version and a tile name around a year field
      decompose into the id `version_year_tile`, the version and the year
      field's dates. */
  lemma ParseLayoutHref(prefix: string, version: string, year: string, loc: string)
    requires version != "" && '/' !in version
    requires loc != ""
    requires YearDates(year).Ok?
    ensures ParseHref(LayoutFormat(prefix), LayoutHref(prefix, version, year, loc)).Ok?
    ensures var p := ParseHref(LayoutFormat(prefix), LayoutHref(prefix, version, year, loc)).value.value;
      && p.id == Join("_", [version, year, loc])
      && p.version == version
      && Dates(p.collection, p.datetime, p.start, p.end) == YearDates(year).value
  {
    var m := map["version" := version, "year" := year, "loc" := loc];
    LayoutFormatValid(prefix);
    LayoutHrefRendered(prefix, version, year, loc);
    YearTextHasNoSlash(year);
    LayoutSeparable(prefix, version, year, loc);
    LayoutFieldValues(prefix, version, year, loc);
    ParseHrefRendered(LayoutFormat(prefix), m);
  }

  /** The href of an asset of the published layout decomposes as above. */
  lemma ParseDefaultHref(version: string, year: string, loc: string)
    requires version != "" && '/' !in version
    requires loc != ""
    requires YearDates(year).Ok?
    ensures ParseHref(DefaultHrefFormat, DefaultHref(version, year, loc)).Ok?
    ensures var p := ParseHref(DefaultHrefFormat, DefaultHref(version, year, loc)).value.value;
      && p.id == Join("_", [version, year, loc])
      && p.version == version
      && Dates(p.collection, p.datetime, p.start, p.end) == YearDates(year).value
  {
    ParseLayoutHref(StoragePrefix, version, year, loc);
  }

  /** The annual and change assets of the test data: `v2`, tile `40N_080W`
      and year field `2000` or `2000-2020change`. */
  lemma ParseAnnualTestHref()
    ensures ParseHref(DefaultHrefFormat, DefaultHref("v2", "2000", "40N_080W"))
      == Ok(Some(ParsedHref(Join("_", ["v2", "2000", "40N_080W"]), "v2", Annual,
                            DateTime(2000, 1, 1, 0, 0, 0), None, None)))
  {
    Year4Dates(2000);
    TestYearTexts();
    ParseDefaultHref("v2", "2000", "40N_080W");
  }

  lemma ParseChangeTestHref()
    ensures ParseHref(DefaultHrefFormat, DefaultHref("v2", "2000-2020change", "40N_080W"))
      == Ok(Some(ParsedHref(Join("_", ["v2", "2000-2020change", "40N_080W"]), "v2", Change,
                            DateTime(2020, 1, 1, 0, 0, 0), Some(DateTime(2000, 1, 1, 0, 0, 0)),
                            Some(DateTime(2020, 12, 31, 23, 59, 59)))))
  {
    ChangeTestDates();
    ParseDefaultHref("v2", "2000-2020change", "40N_080W");
  }

  lemma ChangeTestDates()
    ensures YearDates("2000-2020change") == Ok(Dates(Change, DateTime(2020, 1, 1, 0, 0, 0),
      Some(DateTime(2000, 1, 1, 0, 0, 0)), Some(DateTime(2020, 12, 31, 23, 59, 59))))
  {
    ChangeTextDates(2000, 2020);
    TestYearTexts();
  }

  /** The year fields of the test data, as written by `Year4`. */
  lemma TestYearTexts()
    ensures Year4(2000) == "2000"
    ensures ChangeText(2000, 2020) == "2000-2020change"
  {
    assert Year4(2020) == "2020";
  }

  /** The year field written for a change span from `start` to `end` gives
      back that span's dates. */
  lemma ChangeTextDates(start: nat, end: nat)
    requires 1 <= start <= 9999 && 1 <= end <= 9999
    ensures YearDates(ChangeText(start, end)) == Ok(Dates(Change, DateTime(end, 1, 1, 0, 0, 0),
      Some(DateTime(start, 1, 1, 0, 0, 0)), Some(DateTime(end, 12, 31, 23, 59, 59))))
  {
    InterpretChangeText(start, end);
  }

  /** The year field written for year `y` gives back the dates of that
      year. */
  lemma Year4Dates(y: nat)
    requires 1 <= y <= 9999
    ensures YearDates(Year4(y)) == Ok(Dates(Annual, DateTime(y, 1, 1, 0, 0, 0), None, None))
  {
    InterpretYear4(y);
  }

  // ---------------------------------------------------------------------------
  // Media type

  /** Whether an optional href is truthy: present and non-empty. */
  predicate Given(href: Option<string>) {
    href.Some? && href.value != ""
  }

  /** The media type of the data asset: an explicit one wins; otherwise it
      is sniffed from the sample href; without either it is an error. The
      sniffer is `_get_media_type`, given as a parameter. */
  function ResolveMediaType(media: Option<MediaType>, sample: Option<string>,
                            sniff: string -> Result<MediaType>): (r: Result<MediaType>)
    ensures media.None? && !Given(sample) ==> r == Err(MediaTypeRequired)
    ensures media.Some? ==> r == Ok(media.value)
    ensures media.None? && Given(sample) ==> r == sniff(sample.value)
  {
    if media.None? && !Given(sample) then Err(MediaTypeRequired)
    else if media.Some? then Ok(media.value)
    else sniff(sample.value)
  }

  /** An explicit media type is the one used, whatever sample href and
      sniffer accompany it. */
  lemma ExplicitMediaTypeWins(media: MediaType, sample1: Option<string>, sample2: Option<string>,
                              sniff1: string -> Result<MediaType>, sniff2: string -> Result<MediaType>)
    ensures ResolveMediaType(Some(media), sample1, sniff1) == ResolveMediaType(Some(media), sample2, sniff2) == Ok(media)
  {
  }

  // ---------------------------------------------------------------------------
  // Collections and items

  /** An item-asset definition: roles, media type and classes. */
  datatype AssetDefinition = AssetDefinition(roles: seq<string>, mediaType: Option<MediaType>, classes: seq<Classification>)

  /** The parts of a collection that the package computes. */
  datatype Collection = Collection(
    id: string,
    itemAssets: map<string, AssetDefinition>,
    renders: map<string, RenderSlice>,
    start: DateTime,
    end: DateTime)

  /** The parts of an item that the package computes. */
  datatype Item = Item(
    id: string,
    collection: CollectionId,
    datetime: DateTime,
    version: string,
    start: Option<DateTime>,
    end: Option<DateTime>,
    href: string,
    mediaType: MediaType,
    classes: seq<Classification>)

  /** The rows of the two classes tables, `slugify` and the media-type
      sniffer: everything the package reads from outside. */
  datatype Environment = Environment(
    annualRows: seq<Row>,
    changeRows: seq<Row>,
    slugify: string -> string,
    sniff: string -> Result<MediaType>)

  function RowsFor(env: Environment, id: CollectionId): seq<Row> {
    if id == Annual then env.annualRows else env.changeRows
  }

  /** `item_assets`: one `data` definition, without a media type, carrying
      the classes. */
  function ItemAssetsOf(classes: seq<Classification>): map<string, AssetDefinition> {
    map[AssetName := AssetDefinition(AssetRoles, None, classes)]
  }

  /** What `build_collection` produces for a definition with the given id and
      rows: first the media type is settled, then the classifications are
      loaded, then the renders are built; the first failure is the result. */
  function CollectionOf(id: CollectionId, rows: seq<Row>, slugify: string -> string,
                        media: Option<MediaType>, sample: Option<string>,
                        sniff: string -> Result<MediaType>): (r: Result<Collection>)
    ensures media.None? && !Given(sample) ==> r == Err(MediaTypeRequired)
    ensures r.Ok? <==>
      && ResolveMediaType(media, sample, sniff).Ok?
      && LoadAll(rows, slugify).Ok?
      && Renders.Renders(id, LoadAll(rows, slugify).value).Ok?
    ensures ResolveMediaType(media, sample, sniff).Err? ==>
      r == Err(ResolveMediaType(media, sample, sniff).error)
    ensures ResolveMediaType(media, sample, sniff).Ok? && LoadAll(rows, slugify).Err? ==>
      r == Err(LoadAll(rows, slugify).error)
    ensures ResolveMediaType(media, sample, sniff).Ok? && LoadAll(rows, slugify).Ok?
            && Renders.Renders(id, LoadAll(rows, slugify).value).Err? ==>
      r == Err(Renders.Renders(id, LoadAll(rows, slugify).value).error)
    ensures r.Ok? ==>
      && r.value.id == id.Value()
      && r.value.itemAssets.Keys == {"data"}
      && r.value.itemAssets["data"].roles == ["data"]
      && r.value.itemAssets["data"].mediaType == Some(ResolveMediaType(media, sample, sniff).value)
      && (media.Some? ==> r.value.itemAssets["data"].mediaType == media)
      && r.value.itemAssets["data"].classes == LoadAll(rows, slugify).value
      && r.value.renders == Renders.Renders(id, LoadAll(rows, slugify).value).value
      && r.value.start == CollectionStart && r.value.end == CollectionEnd
  {
    var mediaType :- ResolveMediaType(media, sample, sniff);
    var classes :- LoadAll(rows, slugify);
    var renders :- Renders.Renders(id, classes);
    var assets := ItemAssetsOf(classes);
    Ok(Collection(id.Value(), assets[AssetName := assets[AssetName].(mediaType := Some(mediaType))],
                  renders, CollectionStart, CollectionEnd))
  }

  /** What `create_item` of a definition produces: the href is decomposed,
      the asset's media type sniffed and the classifications loaded, in that
      order. */
  function ItemOf(rows: seq<Row>, slugify: string -> string, format: Template, href: string,
                  sniff: string -> Result<MediaType>): (r: Result<Item>)
    ensures ParseHref(format, href).Err? ==> r == Err(ParseHref(format, href).error)
    ensures r.Ok? <==>
      && ParseHref(format, href).Ok?
      && sniff(href).Ok?
      && LoadAll(rows, slugify).Ok?
    ensures ParseHref(format, href).Ok? && sniff(href).Err? ==>
      r == Err(sniff(href).error)
    ensures ParseHref(format, href).Ok? && sniff(href).Ok?
            && LoadAll(rows, slugify).Err? ==>
      r == Err(LoadAll(rows, slugify).error)
    ensures r.Ok? ==>
      var p := ParseHref(format, href).value.value;
      && r.value.id == p.id && r.value.collection == p.collection && r.value.datetime == p.datetime
      && r.value.version == p.version && r.value.start == p.start && r.value.end == p.end
      && r.value.href == href
      && r.value.mediaType == sniff(href).value
      && r.value.classes == LoadAll(rows, slugify).value
  {
    var parsed :- ParseHref(format, href);
    if parsed.None? then Err(UnableToParseHref(href))
    else
      var p := parsed.value;
      var mediaType :- sniff(href);
      var classes :- LoadAll(rows, slugify);
      Ok(Item(p.id, p.collection, p.datetime, p.version, p.start, p.end, href, mediaType, classes))
  }

  /** The first element that fails to convert decides the result of the
      whole conversion, however the sequence continues. */
  lemma ConvertAllFailedPrefix<R, C>(xs: seq<R>, f: R -> Result<C>, k: nat)
    requires k <= |xs| && ConvertAll(xs[..k], f).Err?
    ensures ConvertAll(xs, f) == ConvertAll(xs[..k], f)
  {
    var pre := xs[..k];
    var i :| FirstFailure(pre, f, i) && ConvertAll(pre, f).error == f(pre[i]).error;
    assert forall j :: 0 <= j <= i ==> pre[j] == xs[j];
    assert FirstFailure(xs, f, i);
    assert !AllConvert(xs, f);
    var j :| FirstFailure(xs, f, j) && ConvertAll(xs, f).error == f(xs[j]).error;
    FirstFailureUnique(xs, f, i, j);
  }

  lemma FirstFailureUnique<R, C>(xs: seq<R>, f: R -> Result<C>, i: int, j: int)
    requires FirstFailure(xs, f, i) && FirstFailure(xs, f, j)
    ensures i == j
  {
  }

  /** One more element, after a prefix that converted. */
  lemma ConvertAllStep<R, C>(xs: seq<R>, f: R -> Result<C>, k: nat)
    requires k < |xs| && ConvertAll(xs[..k], f).Ok?
    ensures ConvertAll(xs[..k + 1], f) ==
      if f(xs[k]).Err? then Err(f(xs[k]).error) else Ok(ConvertAll(xs[..k], f).value + [f(xs[k]).value])
  {
    assert xs[..k + 1][..k] == xs[..k];
  }

  /** A collection definition: its id, its classes table, the shared href
      format, and the classifications once loaded. */
  class CollectionDefinition {
    const id: CollectionId
    const rows: seq<Row>
    const slugify: string -> string
    const hrefFormat: Template
    /** `_classifications`: nothing until the first successful load. */
    var cache: Option<seq<Classification>>
    /** The number of times the table has been read. */
    ghost var readCount: nat
    /** The outcome of reading the table, which the table fixes. */
    ghost const table: Result<seq<Classification>>

    /** A cached list is the table's classifications. */
    ghost predicate Valid()
      reads this
    {
      && table == LoadAll(rows, slugify)
      && (cache.Some? ==> table == Ok(cache.value))
    }

    constructor(id: CollectionId, rows: seq<Row>, slugify: string -> string, hrefFormat: Template)
      ensures this.id == id && this.rows == rows && this.slugify == slugify && this.hrefFormat == hrefFormat
      ensures cache == None && readCount == 0
      ensures Valid()
    {
      this.id := id;
      this.rows := rows;
      this.slugify := slugify;
      this.hrefFormat := hrefFormat;
      cache := None;
      readCount := 0;
      table := LoadAll(rows, slugify);
    }

    /** `_load_classifications`: one classification per row, appended in row
        order; a row whose value is not an integer ends the load. */
    method LoadClassifications() returns (r: Result<seq<Classification>>)
      ensures r == LoadAll(rows, slugify)
    {
      var f := (row: Row) => ConvertRow(row, slugify);
      var classifications: seq<Classification> := [];
      var i := 0;
      while i < |rows|
        invariant 0 <= i <= |rows|
        invariant ConvertAll(rows[..i], f) == Ok(classifications)
      {
        ConvertAllStep(rows, f, i);
        var entry := ConvertRow(rows[i], slugify);
        if entry.Err? {
          ConvertAllFailedPrefix(rows, f, i + 1);
          return Err(entry.error);
        }
        classifications := classifications + [entry.value];
        i := i + 1;
      }
      assert rows[..i] == rows;
      return Ok(classifications);
    }

    /** The `classifications` property: the table is read on the first call
        that finds nothing cached, and a successful read is kept. */
    method Classifications() returns (r: Result<seq<Classification>>)
      requires Valid()
      modifies this
      ensures Valid()
      ensures r == table
      ensures old(cache).Some? ==> cache == old(cache) && readCount == old(readCount)
      ensures old(cache).None? ==> readCount == old(readCount) + 1 && cache == (if r.Ok? then Some(r.value) else None)
    {
      if cache.Some? {
        return Ok(cache.value);
      }
      r := Load();
    }

    /** A read of the table that keeps what it read, when it succeeds. */
    method Load() returns (r: Result<seq<Classification>>)
      requires Valid() && cache.None?
      modifies this
      ensures Valid()
      ensures r == table
      ensures readCount == old(readCount) + 1 && cache == (if r.Ok? then Some(r.value) else None)
    {
      r := LoadClassifications();
      readCount := readCount + 1;
      if r.Ok? {
        cache := Some(r.value);
      }
    }

    /** The `item_assets` property. */
    method ItemAssets() returns (r: Result<map<string, AssetDefinition>>)
      requires Valid()
      modifies this
      ensures Valid()
      ensures LoadAll(rows, slugify).Ok? <==> r.Ok?
      ensures r.Ok? ==> r.value == ItemAssetsOf(LoadAll(rows, slugify).value)
      ensures r.Err? ==> r.error == LoadAll(rows, slugify).error
      ensures old(cache).Some? ==> cache == old(cache) && readCount == old(readCount)
      ensures old(cache).None? ==> readCount == old(readCount) + 1 && cache == (if table.Ok? then Some(table.value) else None)
    {
      var classes :- Classifications();
      return Ok(ItemAssetsOf(classes));
    }

    /** The `renders` property. */
    method RenderTable() returns (r: Result<map<string, RenderSlice>>)
      requires Valid()
      modifies this
      ensures Valid()
      ensures r == (if LoadAll(rows, slugify).Err? then Err(LoadAll(rows, slugify).error)
                    else Renders.Renders(id, LoadAll(rows, slugify).value))
      ensures old(cache).Some? ==> cache == old(cache) && readCount == old(readCount)
      ensures old(cache).None? ==> readCount == old(readCount) + 1 && cache == (if table.Ok? then Some(table.value) else None)
    {
      var classes :- Classifications();
      r := Renders.Renders(id, classes);
    }

    /** `build_collection`. */
    method BuildCollection(media: Option<MediaType>, sample: Option<string>,
                           sniff: string -> Result<MediaType>) returns (r: Result<Collection>)
      requires Valid()
      modifies this
      ensures Valid()
      ensures r == CollectionOf(id, rows, slugify, media, sample, sniff)
      ensures old(cache).Some? || ResolveMediaType(media, sample, sniff).Err? ==> cache == old(cache) && readCount == old(readCount)
      ensures old(cache).None? && ResolveMediaType(media, sample, sniff).Ok? ==> readCount == old(readCount) + 1 && cache == (if table.Ok? then Some(table.value) else None)
    {
      if media.None? && !Given(sample) {
        return Err(MediaTypeRequired);
      }
      var mediaType := media;
      if media.None? && Given(sample) {
        var sniffed :- sniff(sample.value);
        mediaType := Some(sniffed);
      }
      var assets :- ItemAssets();
      assets := assets[AssetName := assets[AssetName].(mediaType := mediaType)];
      var renders :- RenderTable();
      return Ok(Collection(id.Value(), assets, renders, CollectionStart, CollectionEnd));
    }

    /** `create_item` of this definition. */
    method CreateItem(href: string, sniff: string -> Result<MediaType>) returns (r: Result<Item>)
      requires Valid()
      modifies this
      ensures Valid()
      ensures r == ItemOf(rows, slugify, hrefFormat, href, sniff)
      ensures old(cache).Some? || ParseHref(hrefFormat, href).Err? || sniff(href).Err? ==> cache == old(cache) && readCount == old(readCount)
      ensures old(cache).None? && ParseHref(hrefFormat, href).Ok? && sniff(href).Ok? ==> readCount == old(readCount) + 1 && cache == (if table.Ok? then Some(table.value) else None)
    {
      var parsed :- ParseHref(hrefFormat, href);
      if parsed.None? {
        return Err(UnableToParseHref(href));
      }
      var p := parsed.value;
      var mediaType :- sniff(href);
      var classes :- Classifications();
      return Ok(Item(p.id, p.collection, p.datetime, p.version, p.start, p.end, href, mediaType, classes));
    }
  }

  /** `CollectionRegistry`: the validated href format and one definition per
      collection id, annual first. */
  class CollectionRegistry {
    const hrefFormat: Template
    const configs: map<CollectionId, CollectionDefinition>

    /** Both ids are registered, each to its own definition with that id and
        the registry's validated format. */
    ghost predicate Valid()
      reads this, configs.Values
    {
      && ValidateHrefFormat(hrefFormat).Ok?
      && Annual in configs && Change in configs
      && configs[Annual] != configs[Change]
      && configs[Annual].id == Annual && configs[Change].id == Change
      && configs[Annual].hrefFormat == hrefFormat && configs[Change].hrefFormat == hrefFormat
      && configs[Annual].Valid() && configs[Change].Valid()
    }

    constructor(format: Template, annual: CollectionDefinition, change: CollectionDefinition)
      requires ValidateHrefFormat(format).Ok?
      requires annual != change && annual.id == Annual && change.id == Change
      requires annual.hrefFormat == format && change.hrefFormat == format
      requires annual.Valid() && change.Valid()
      ensures hrefFormat == format && configs == map[Annual := annual, Change := change]
      ensures Valid()
    {
      hrefFormat := format;
      configs := map[Annual := annual, Change := change];
    }

    /** `CollectionRegistry(href_format=...)`: the format is validated first;
        both definitions then share it. */
    static method Create(format: Template, env: Environment) returns (r: Result<CollectionRegistry>)
      ensures r.Ok? <==> ValidateHrefFormat(format).Ok?
      ensures r.Err? ==> r.error == ValidateHrefFormat(format).error
      ensures r.Ok? ==>
        && r.value.Valid()
        && fresh(r.value) && fresh(r.value.configs[Annual]) && fresh(r.value.configs[Change])
        && r.value.hrefFormat == format
        && r.value.configs[Annual].rows == env.annualRows
        && r.value.configs[Change].rows == env.changeRows
        && r.value.configs[Annual].slugify == env.slugify
        && r.value.configs[Change].slugify == env.slugify
        && r.value.configs[Annual].cache == None && r.value.configs[Annual].readCount == 0
        && r.value.configs[Change].cache == None && r.value.configs[Change].readCount == 0
    {
      var validated :- ValidateHrefFormat(format);
      var annual := new CollectionDefinition(Annual, env.annualRows, env.slugify, validated);
      var change := new CollectionDefinition(Change, env.changeRows, env.slugify, validated);
      var registry := new CollectionRegistry(validated, annual, change);
      return Ok(registry);
    }

    /** `get_config`. */
    function GetConfig(id: CollectionId): (r: Result<CollectionDefinition>)
      ensures r.Ok? <==> id in configs
      ensures r.Ok? ==> r.value == configs[id]
      ensures r.Err? ==> r == Err(UnknownCollection(id))
    {
      if id !in configs then Err(UnknownCollection(id)) else Ok(configs[id])
    }

    /** `configs.values()`, in insertion order. */
    function Values(): (r: seq<CollectionDefinition>)
      requires Annual in configs && Change in configs
      ensures |r| == 2 && r[0] == configs[Annual] && r[1] == configs[Change]
    {
      [configs[Annual], configs[Change]]
    }
  }

  /** A registry made from an environment finds a definition for every id:
      the one with that id, the registry's format, and that collection's
      table. */
  lemma GetConfigFound(registry: CollectionRegistry, env: Environment, id: CollectionId)
    requires registry.Valid()
    requires registry.configs[Annual].rows == env.annualRows && registry.configs[Change].rows == env.changeRows
    requires registry.configs[Annual].slugify == env.slugify && registry.configs[Change].slugify == env.slugify
    ensures registry.GetConfig(id).Ok?
    ensures var config := registry.GetConfig(id).value;
      && config.Valid()
      && config.id == id
      && config.hrefFormat == registry.hrefFormat
      && config.rows == RowsFor(env, id)
      && config.slugify == env.slugify
  {
    if id == Annual {
      assert registry.GetConfig(id).value == registry.configs[Annual];
    } else {
      assert registry.GetConfig(id).value == registry.configs[Change];
    }
  }
}
