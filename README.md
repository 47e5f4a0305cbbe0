# GLAD GLCLU2020 STAC metadata, modelled in Dafny

The `stactools` package for the GLAD Global Land Cover and Land Use Change
dataset (2000–2020) describes two STAC collections: the annual maps
(`glad-glclu2020`) and the 2000–2020 net change map
(`glad-glclu2020-change`). This project models the logic of that package and
proves properties of the model:

- **Href formats** (`href_format.dfy`). A user-supplied href format such as
  `…/{version}/{year}/{loc}.tif` is a sequence of literal and field tokens.
  `validate_href_format` checks that it names `version` and `year`, and
  `parse` decomposes a concrete asset href against it. The matcher follows
  the `parse` library:
  - each field captures at least one character, lazily;
  - the whole href must match;
  - a repeated field name must capture the same text again;
  - the captures are listed in the order in which their fields first occur.
- **The year field** (`year_field.dfy`). The captured year is read with the
  change sub-format `{start_year:4d}-{end_year:4d}change` first and then with
  the annual sub-format `{year:4d}`. The model builds the item's UTC
  datetimes from it, and the year 0000 is rejected as `datetime` rejects it.
- **`parse_href` and `create_item` of a collection definition**
  (`metadata.dfy`). These produce the item id (the captured values joined
  by `_`), the version, the collection id and the datetimes.
- **The classes tables** (`classifications.dfy`). `_load_classifications`
  turns CSV rows into classification records: value, slug name,
  description, nodata flag and colour hint. The `classifications` property
  of `CollectionDefinition` (a class in `metadata.dfy`) caches the list once
  it has loaded.
- **`renders`** (`renders.dfy`). This is the time-slice table of a
  collection: five annual slices, or one change slice. Each slice carries a
  colormap, which the model builds by reading each colour hint's hex pairs
  with Python's `int(…, 16)` semantics.
- **`build_collection`**. It settles the data asset's media type: an
  explicit media type is used; otherwise it is sniffed from a sample href;
  with neither, building fails.
- **`CollectionRegistry` and the entry points** (`stac.py`, modelled in
  `stac.dfy`). `CollectionRegistry` validates one href format and shares it
  between both definitions. `create_collection` looks a definition up and
  delegates to it. `create_item` routes an href to the first definition that
  decomposes it.

Python's `str.strip`, `int()`, `"sep".join` and `str(n)` are modelled in
`text.dfy`. Errors are the `Error` datatype of `base.dfy`, carried in a
`Result`. Each Python `raise` in the core is one constructor of `Error`,
except the `Invalid href_format` error of `validate_href_format`, which the
model does not raise (see `HrefFormat.ValidateHrefFormat` under "Left out").

The classes tables, `slugify` and media-type sniffing all come from outside
the package. They are the fields of an `Environment` value: two sequences of
rows, a function on strings, and a function from an href to a media type or
an error.

Two behaviours of the code are easy to miss:

- **An href that does not match the format raises.** `parse_href` raises
  when `parse` finds no match (metadata.py:279-283). So the loop of
  `stac.create_item` never moves on to the next definition, and its closing
  "no matching collection" error (stac.py:82) is never reached
  (`Metadata.ParseHref`, `Stac.UnmatchedHref`).
- **A whitespace-only colour hint becomes `""`.** Such a cell becomes the
  empty hint `""` rather than `None` (metadata.py:150). The colormap then
  skips it, because `if classification.color_hint` is false for `""`
  (metadata.py:190). See `Classifications.ColorHintCells` and
  `Renders.ColormapEntries`.

## Model

| member | source | states |
|---|---|---|
| Text.StripIsSlice | src/stactools/glad_glclu2020/metadata.py:146 | `strip()` keeps a contiguous slice of the text, starting right after its leading whitespace |
| Text.StripDropsSpace | src/stactools/glad_glclu2020/metadata.py:146 | everything `strip()` drops after the kept slice is whitespace |
| Text.StripEnds | src/stactools/glad_glclu2020/metadata.py:150 | a stripped text is empty or has non-whitespace at both ends |
| Text.StripUnchanged | src/stactools/glad_glclu2020/metadata.py:150 | a text with no whitespace at either end is its own stripped form (stripping is idempotent) |
| Text.StripIdempotent | src/stactools/glad_glclu2020/metadata.py:146 | stripping twice is the same as stripping once |
| Text.StripEmptyIff | src/stactools/glad_glclu2020/metadata.py:146 | a text strips to nothing exactly when it is empty or all whitespace |
| Text.ParseIntStripped | src/stactools/glad_glclu2020/metadata.py:138 | `int()` gives the same result for a literal and for the literal without its surrounding whitespace |
| Text.ParseDigits | src/stactools/glad_glclu2020/metadata.py:138 | a bare run of digits parses to the number it spells |
| Text.ParseDecimal | src/stactools/glad_glclu2020/metadata.py:138 | `int(str(n)) == n` for every integer, negative ones included |
| Text.ParseTwoHexDigits | src/stactools/glad_glclu2020/metadata.py:187 | two hex digits parse, in base 16, to 16 times the first digit's value plus the second's |
| Text.ParseHexByte | src/stactools/glad_glclu2020/metadata.py:187 | writing a byte as two hex digits and reading them back with `int(…, 16)` gives the byte |
| HrefFormat.NamedFieldsSpec | src/stactools/glad_glclu2020/metadata.py:394 | `named_fields` lists exactly the names of the format's fields, each once |
| HrefFormat.NewNamesSpec | src/stactools/glad_glclu2020/metadata.py:394 | the names not yet seen are exactly the fields outside the seen set, with no repeats |
| HrefFormat.ValidateHrefFormat | src/stactools/glad_glclu2020/metadata.py:386-403 | the format comes back unchanged exactly when it names both `version` and `year`; otherwise the error lists exactly the missing required names, in sorted order |
| HrefFormat.MatchSound | src/stactools/glad_glclu2020/metadata.py:278 | a successful match extends the captures with the format's new fields, each bound to non-empty text, while earlier captures keep their values; the format filled with the resulting values spells the matched text |
| HrefFormat.MatchComplete | src/stactools/glad_glclu2020/metadata.py:278 | if some non-empty values make the format spell the text, the backtracking match finds a match |
| HrefFormat.ParseSound | src/stactools/glad_glclu2020/metadata.py:278 | a successful `parse` names exactly the format's fields, in order, with non-empty values from which the format rebuilds the href |
| HrefFormat.ParseMatchesIff | src/stactools/glad_glclu2020/metadata.py:278-283 | `parse` succeeds if and only if some non-empty field values make the format spell out the href |
| HrefFormat.ParseRendered | src/stactools/glad_glclu2020/metadata.py:278 | substituting values into a format and parsing the result gives those same values back, keyed and ordered by the format's fields. This holds when each field is last, is followed by the format's final literal, or holds no copy of the first character of the literal after it. `named.values()` of the result lists the values in the order the fields first occur |
| YearField.AnnualFormat | src/stactools/glad_glclu2020/metadata.py:85 | `{year:4d}` matches exactly four ASCII digits, and gives their value, which lies in 0..9999 |
| YearField.ChangeFormat | src/stactools/glad_glclu2020/metadata.py:86 | the change sub-format matches four digits, `-`, four digits and `change` in any letter case, and nothing else; it gives the two four-digit values |
| YearField.InterpretYearAnnualIff | src/stactools/glad_glclu2020/metadata.py:315-327 | a year field reads as annual year `y` if and only if it is `y` written as four digits (both directions of the round trip) |
| YearField.InterpretYearChangeIff | src/stactools/glad_glclu2020/metadata.py:285-314 | a year field reads as the change span from S to E if and only if it is S and E written as four digits around `-`, followed by `change` in any letter case |
| YearField.InterpretChangeSuffix | src/stactools/glad_glclu2020/metadata.py:285-314 | a span written with four-digit years and a `change` suffix in any letter case reads back as that span |
| YearField.UpperCaseChangeSuffix | src/stactools/glad_glclu2020/metadata.py:285 | `2000-2020CHANGE` is the change span from 2000 to 2020, as `parse` ignores letter case |
| YearField.Year4OfDigits | src/stactools/glad_glclu2020/metadata.py:85 | four digits are exactly the zero-padded writing of their value |
| YearField.FormatsExclusive | src/stactools/glad_glclu2020/metadata.py:285-319 | no year field matches both sub-formats |
| YearField.InterpretYear4 | src/stactools/glad_glclu2020/metadata.py:315-327 | a year written as four digits reads back as that annual year (round trip) |
| YearField.InterpretChangeText | src/stactools/glad_glclu2020/metadata.py:285-314 | the text `SSSS-EEEEchange` written for a span reads back as that start and end (round trip) |
| YearField.RejectsFiveDigitYears | tests/test_stac.py:107-116 | `20000` and `2000-20200change` match neither sub-format and are reported as unparseable year fields |
| Classifications.DescriptionBlankSubClass | src/stactools/glad_glclu2020/metadata.py:144-148 | the description is just `class` when the sub-class cell is empty or whitespace only, and `class - sub_class` when the cell holds any other character |
| Classifications.ColorHintCells | src/stactools/glad_glclu2020/metadata.py:150 | an empty cell has no hint; a whitespace-only cell gives the empty hint `""`; a cell without surrounding whitespace is kept as it is |
| Classifications.ConvertAll | src/stactools/glad_glclu2020/metadata.py:133-154 | converting in order succeeds exactly when every element converts, giving one result per element in order; otherwise the error is that of the first element that fails |
| Classifications.LoadAllRows | src/stactools/glad_glclu2020/metadata.py:132-154 | the table loads exactly when every value cell is an integer literal. It then holds one classification per row, in row order, each as `ConvertRow` describes; otherwise the error names the value cell of the first bad row |
| Classifications.ConvertWrittenRow | src/stactools/glad_glclu2020/metadata.py:138-149 | a row whose value cell is `str(v)` converts to value `v`, and is the nodata row exactly when `v` is 255 |
| Renders.PySlice | src/stactools/glad_glclu2020/metadata.py:187 | Python's `s[i:j]`: both bounds clamped to the length; a plain slice when in range, empty when it starts past the end |
| Renders.HexPair | src/stactools/glad_glclu2020/metadata.py:187 | `int(hint[i:i+2], 16)` succeeds exactly when that slice is a base-16 literal; its value lies in -15..255 |
| Renders.ShortLiteralRange | src/stactools/glad_glclu2020/metadata.py:187 | any base-16 literal of at most two characters has a value in -15..255 |
| Renders.HexPairDigits | src/stactools/glad_glclu2020/metadata.py:187 | two hex digits at offset `i` read as 16 times the first plus the second |
| Renders.HexPairByte | src/stactools/glad_glclu2020/metadata.py:187 | two hex digits at offset `i` read as a value in 0..255 |
| Renders.HexColorComponents | src/stactools/glad_glclu2020/metadata.py:186-188 | a six-hex-digit hint converts, to three components each in 0..255 |
| Renders.HexRgbRoundTrip | src/stactools/glad_glclu2020/metadata.py:186-188 | a colour written as three hex bytes reads back as the same colour |
| Renders.HintMap | src/stactools/glad_glclu2020/metadata.py:184-191 | the colormap comprehension succeeds exactly when every truthy hint converts; otherwise its error is the conversion error of the first truthy hint that does not convert |
| Renders.ShortHintError | src/stactools/glad_glclu2020/metadata.py:186-188 | the four-character hint `ABCD` fails on its third pair, the empty slice, with an invalid base-16 literal `''` |
| Renders.HintMapKeys | src/stactools/glad_glclu2020/metadata.py:189-190 | the colormap's keys are exactly the values of classifications with a truthy hint |
| Renders.HintMapLastWins | src/stactools/glad_glclu2020/metadata.py:184-191 | when a value occurs several times, its colour is the converted hint of its last hinted occurrence |
| Renders.ColormapEntries | src/stactools/glad_glclu2020/metadata.py:184-191 | the colormap exists exactly when every truthy hint converts; its keys are exactly the hinted values, and each maps to the colour of the last classification with that value and a hint. When it fails, the error is that of the first truthy hint that does not convert |
| Renders.Slices | src/stactools/glad_glclu2020/metadata.py:180-194 | every slice draws the `data` asset and carries the one shared colormap |
| Renders.SlicesKeys | src/stactools/glad_glclu2020/metadata.py:180-194 | the table has exactly one entry per key of the (key, datetime) pairs |
| Renders.SlicesLastWins | src/stactools/glad_glclu2020/metadata.py:180-194 | each key holds the datetime of its last pair |
| Renders.Renders | src/stactools/glad_glclu2020/metadata.py:169-194 | the renders exist exactly when the colormap does, and fail with its error otherwise; every slice draws `data` with that colormap |
| Renders.AnnualSlices | src/stactools/glad_glclu2020/metadata.py:173-176 | the annual pairs have exactly the five years as keys, no key repeats, and each pair's interval covers its own year |
| Renders.RendersAnnual | src/stactools/glad_glclu2020/metadata.py:172-177 | the annual collection has exactly the slices 2000, 2005, 2010, 2015 and 2020, each covering `Y-01-01T00:00:00Z/Y-12-31T23:59:59Z` |
| Renders.RendersChange | src/stactools/glad_glclu2020/metadata.py:178 | the change collection has exactly the one slice `2000-2020 change`, covering 2000-01-01 to 2020-12-31T23:59:59Z |
| Metadata.LayoutFormatValid | src/stactools/glad_glclu2020/metadata.py:41 | the published layout below any prefix names `version`, `year` and `loc`, in that order, and passes validation |
| Metadata.DefaultHrefFormatValid | src/stactools/glad_glclu2020/metadata.py:41 | `DEFAULT_HREF_FORMAT` names `version`, `year` and `loc`, in that order, and passes validation |
| Metadata.YearDates | src/stactools/glad_glclu2020/metadata.py:285-334 | a change span S–E gives the change collection, start S-01-01, end E-12-31T23:59:59, and an item datetime of E-01-01 (the end year). Four digits Y give the annual collection at Y-01-01 and no start or end. Year 0 is out of range, and anything else is an unparseable year |
| Metadata.ParseHref | src/stactools/glad_glclu2020/metadata.py:277-341 | an href the format does not match is an error naming the href; a year field that fails fails the decomposition with its error. On success there is always a record (never `None`), holding: the captured values joined by `_` in field order, the captured version, and the collection and dates of the year field |
| Metadata.ParseHrefValidated | src/stactools/glad_glclu2020/metadata.py:277-287 | with a validated format, a matching href fails only through its year field; otherwise it decomposes |
| Metadata.ParseHrefRendered | src/stactools/glad_glclu2020/metadata.py:336-341 | substituting a version, a year field and other separable values into a validated format, then decomposing the result, gives back the version, the year's dates, and the id of the values in field order |
| Metadata.ParseLayoutHref | src/stactools/glad_glclu2020/metadata.py:277-341 | an href of the published layout below any prefix decomposes into the id `version_year_loc`, the version and the year field's dates. This holds for every accepted year field, every non-empty tile name, and every non-empty version without `/` (a `/` in the version would end its capture early) |
| Metadata.ParseDefaultHref | src/stactools/glad_glclu2020/metadata.py:277-341 | the same for hrefs of `DEFAULT_HREF_FORMAT`, under the same conditions on the version and the tile name |
| Metadata.ParseAnnualTestHref | tests/test_stac.py:83-94 | the annual test asset `v2/2000/40N_080W.tif` decomposes to id `v2_2000_40N_080W`, the annual collection and 2000-01-01 |
| Metadata.ParseChangeTestHref | tests/test_stac.py:83-94 | the change test asset `v2/2000-2020change/40N_080W.tif` decomposes to id `v2_2000-2020change_40N_080W`, the change collection, datetime 2020-01-01, start 2000-01-01 and end 2020-12-31T23:59:59 |
| Metadata.ChangeTextDates | src/stactools/glad_glclu2020/metadata.py:285-314 | the year field written for any span of years 1..9999 gives back that span's change dates |
| Metadata.Year4Dates | src/stactools/glad_glclu2020/metadata.py:315-327 | the year field written for any year 1..9999 gives back that year's annual date |
| Metadata.ChangeTestDates | src/stactools/glad_glclu2020/metadata.py:285-314 | `2000-2020change` gives the change collection with datetime 2020-01-01, start 2000-01-01 and end 2020-12-31T23:59:59 |
| Metadata.ExplicitMediaTypeWins | src/stactools/glad_glclu2020/metadata.py:208-209 | an explicit media type is the one used, whatever sample href and sniffer come with it |
| Metadata.CollectionOf | src/stactools/glad_glclu2020/metadata.py:196-212 | a collection is built exactly when the media type is settled, the table loads and its renders can be built. Otherwise the first of these to fail gives the error; without a media type or a sample href that is `MediaTypeRequired`. On success it has the requested id, exactly one `data` item asset with roles `[data]`, the chosen media type (the explicit one when given) and the loaded classes, the renders of those classes, and the 2000–2020 temporal extent |
| Metadata.ItemOf | src/stactools/glad_glclu2020/metadata.py:343-370 | an item is created exactly when the href decomposes, the media type is sniffed and the table loads. Otherwise the first of these to fail gives the error. A created item has the decomposed id, collection, datetime, version, start and end, the asset href, the sniffed media type, and the definition's classes |
| Metadata.ConvertAllFailedPrefix | src/stactools/glad_glclu2020/metadata.py:136-152 | once a prefix of the rows fails to load, the whole table fails with the same error, whatever follows |
| Metadata.ConvertAllStep | src/stactools/glad_glclu2020/metadata.py:136-152 | loading one more row after a prefix that loaded appends that row's classification, or fails with its error |
| Metadata.CollectionDefinition.constructor | src/stactools/glad_glclu2020/metadata.py:105-123 | a definition starts with the given id, table, `slugify` and href format, with nothing cached and nothing read yet |
| Metadata.CollectionDefinition.LoadClassifications | src/stactools/glad_glclu2020/metadata.py:132-154 | the row loop, appending one classification per row and stopping at the first bad row, gives exactly the table's load result |
| Metadata.CollectionDefinition.Classifications | src/stactools/glad_glclu2020/metadata.py:125-130 | the property always returns the table's classifications. With a list cached, nothing is read and the cache stays; otherwise the table is read once and a successful read is cached |
| Metadata.CollectionDefinition.Load | src/stactools/glad_glclu2020/metadata.py:128-129 | one read of the table, whose successful result is kept |
| Metadata.CollectionDefinition.ItemAssets | src/stactools/glad_glclu2020/metadata.py:156-167 | `item_assets` exists exactly when the table loads; it is one `data` definition with roles `[data]`, no media type and the classes. With a cached list nothing is read; otherwise the table is read once and a successful read is cached |
| Metadata.CollectionDefinition.RenderTable | src/stactools/glad_glclu2020/metadata.py:169-194 | `renders` fails with the table's error, or is the renders of the loaded classes; the cache and the read count change as for `item_assets` |
| Metadata.CollectionDefinition.BuildCollection | src/stactools/glad_glclu2020/metadata.py:196-212 | building on the object, with its in-place update of the asset's media type, gives exactly `CollectionOf` for the definition's id and table. The table is read at most once, and only when the media type is settled and nothing is cached; a successful read is cached |
| Metadata.CollectionDefinition.CreateItem | src/stactools/glad_glclu2020/metadata.py:343-370 | creating an item on the object gives exactly `ItemOf` for the definition's table and href format. The table is read at most once, and only when the href decomposes, the media type is sniffed and nothing is cached; a successful read is cached |
| Metadata.CollectionRegistry.constructor | src/stactools/glad_glclu2020/metadata.py:413-444 | the registry holds the validated format and maps the annual and change ids to their two distinct definitions |
| Metadata.CollectionRegistry.Create | src/stactools/glad_glclu2020/metadata.py:413-444 | constructing a registry succeeds exactly when the format is valid, and otherwise fails with the validation error. Both fresh definitions share the format, read their own collection's table, and start with nothing cached and nothing read |
| Metadata.GetConfigFound | src/stactools/glad_glclu2020/metadata.py:416-450 | a constructed registry finds a definition for every id, and that definition has this id, the registry's format and this collection's table |
| Stac.CreateCollection | src/stactools/glad_glclu2020/stac.py:37-57 | `create_collection` is the collection the registered definition of `id` builds from its own table |
| Stac.CollectionIdAndMediaType | tests/test_stac.py:28-31 | a collection built with an explicit media type has the requested id, and its `data` item asset carries that media type |
| Stac.CollectionBuiltWithMediaType | src/stactools/glad_glclu2020/metadata.py:202-212 | with an explicit media type, a collection is built exactly when the table loads and its renders can be built |
| Stac.EmptyTableCollection | src/stactools/glad_glclu2020/metadata.py:196-212 | with an explicit media type, an empty classes table gives a collection |
| Stac.CollectionNeedsMediaType | src/stactools/glad_glclu2020/metadata.py:202-206 | without a media type or a sample href, no collection is built |
| Stac.FirstMatch | src/stactools/glad_glclu2020/stac.py:78-82 | the index found is the first definition whose outcome is a result, and all earlier outcomes are empty. Otherwise the error comes from the first failing outcome, or is "no matching collection" exactly when every outcome is empty |
| Stac.CreateItem | src/stactools/glad_glclu2020/stac.py:60-82 | `create_item` over the registry: validate the format, try the definitions in order, and let the first that decomposes the href create the item |
| Stac.AnnualDefinitionChosen | src/stactools/glad_glclu2020/stac.py:78-80 | since both definitions share the format, `create_item` is always the annual definition's item, or the validation error |
| Stac.InvalidFormatFirst | src/stactools/glad_glclu2020/stac.py:77 | an invalid format fails with its missing-parameters error before the href is looked at |
| Stac.UnmatchedHref | src/stactools/glad_glclu2020/stac.py:82 | an href the valid format does not match reports the "could not parse" error, and the loop never ends with "no matching collection" |
| Stac.ItemCollectionFromYear | src/stactools/glad_glclu2020/metadata.py:285-319 | a created item belongs to the change collection exactly when its year field has the change form |
| Stac.TestItems | tests/test_stac.py:83-96 | the two test assets under the default format give items with ids `v2_2000_40N_080W` and `v2_2000-2020change_40N_080W`, each in its own collection, with the expected datetimes |
| Stac.ChangeItemHasAnnualClasses | src/stactools/glad_glclu2020/stac.py:78-80 | the change test asset gives a change-collection item that carries the classes of the annual table |
| Stac.RoutedItem | src/stactools/glad_glclu2020/stac.py:78-80 | an item is created exactly when the format validates, the href decomposes, the media type is sniffed and the table of the href's own collection loads. The item has that collection and carries that table's classes |
| Stac.RoutedChangeItem | src/stactools/glad_glclu2020/stac.py:78-80 | routed, the change test asset gives a change-collection item that carries the classes of the change table |
| Stac.CreateItemRouted | src/stactools/glad_glclu2020/stac.py:60-82 | routing by the collection that `parse_href` reports gives exactly `RoutedItem` |
| Stac.RoutedAgrees | src/stactools/glad_glclu2020/stac.py:78-80 | on annual hrefs the routed and the as-written items are equal; otherwise they differ at most in their classes |

## Left out

- `_get_media_type` (COG validation and raster reading through `rio_cogeo` and `rasterio`) is file I/O. It is the `sniff` parameter of an `Environment`: any function from an href to a media type or an error.
- Opening and reading the CSV files is I/O. Each classes table is a sequence of `Row` values, and every `Row` has every column. A header without a column (a `KeyError`) is not modelled. Neither is a short row, whose missing cells `csv.DictReader` gives as `None`, so that `int(None)` or `None.strip()` fails.
- `slugify` is a foreign library. It is an uninterpreted function on strings.
- The pystac objects (`Collection`, `Item`, `Asset`, `Link`), the extensions, JSON serialisation and validation are library code. A collection and an item are records of the fields the package computes.
- Fixed data without behaviour is not modelled: titles, descriptions, the spatial extent, keywords, license, links, citation and the thumbnail asset.
- `rio_stac.create_stac_item` reads the raster for geometry and projection. That reading is not modelled; the item keeps the fields the package passes in.
- Timestamps are `DateTime` records, not ISO 8601 strings. Only the renders' interval texts are strings.
- `commands.py` (the command-line interface) and `__init__.py` (plugin registration) are not part of this model.
- HrefFormat.ValidateHrefFormat: templates arrive already split into tokens, so the "Invalid href_format" error for a format string that does not compile is not modelled. The same applies to format specs, positional `{}` fields and escaped braces.
- HrefFormat.Parse: literals are matched case-sensitively, but `parse` matches them ignoring case by default.
- YearField.AnnualFormat: `{year:4d}` is modelled as exactly four ASCII digits. Other forms that the `d` type would also read are not modelled, such as a sign, padding or another width.
- YearField.ChangeFormat: `{start_year:4d}` and `{end_year:4d}` are modelled as exactly four ASCII digits, with the same gaps as `AnnualFormat`. The literal `change` is matched ignoring letter case, as `parse` does.
- Text.ParseInt: `int()` is modelled for ASCII digits after Python's whitespace stripping and an optional sign. Underscores between digits, non-ASCII decimal digits and the `0x` prefix are not modelled. No two-character slice can hold a `0x` prefix followed by a digit.
- Metadata.ParseHref: its `return None` branches are unreachable (a parsed sub-format always yields a `Result`), so the model never returns `None`. `Option` is kept only so that the `if not href_parsed` check of `create_item` has something to test.
- Metadata.CollectionDefinition.Valid: `readCount` is a ghost counter. It records that a successful read happens once; `Valid` does not bound it, so a failing table is read again on every access, as in the code.
- Stac.CreateItem: the loop over `registry.configs.values()` is written as a check of the first definition only. `Stac.FirstMatch` over both outcomes (`Stac.StacItem`) states the loop itself, and `Stac.AnnualDefinitionChosen` shows the second iteration is never reached.
- Stac.CreateCollection: its `UnknownCollection` error is unreachable, because both ids are always registered (`Metadata.GetConfigFound`).

## Findings

| source | as written | input that shows it | evidently intended | confidence | as-written member | corrected member |
|---|---|---|---|---|---|---|
| src/stactools/glad_glclu2020/stac.py:78-80 | Both definitions share one href format (metadata.py:428 and 442), and `parse_href` raises on a mismatch, so the annual definition creates every item. A change-collection item comes out tagged `glad-glclu2020-change` by its year field, yet it carries the classification classes of the annual table. | `DEFAULT_HREF_FORMAT` filled with `v2`, `2000-2020change`, `40N_080W` | The item is created by the definition of the collection its year field names, so it carries the change table's classes | not executed | Stac.ChangeItemHasAnnualClasses | Stac.RoutedItem |
