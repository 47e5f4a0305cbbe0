/** The `renders` table of a collection: one time slice per year (annual
    collection) or one slice for the whole change period, each drawing the
    data asset with a colormap built from the classifications' hex colour
    hints. */
module Renders {
  import opened Base
  import opened Text
  import opened Classifications

  datatype Rgb = Rgb(red: int, green: int, blue: int)

  /** One render: the assets it draws, its datetime interval and colormap. */
  datatype RenderSlice = RenderSlice(assets: seq<string>, datetime: string, colormap: map<int, Rgb>)

  const AssetName: string := "data"

  function Min(a: int, b: int): int {
    if a <= b then a else b
  }

  /** Python's `s[i:j]` for `0 <= i <= j`: the bounds are clamped to the
      length, so a slice past the end is empty. */
  function PySlice(s: string, i: nat, j: nat): (r: string)
    requires i <= j
    ensures |r| == Min(j, |s|) - Min(i, |s|)
    ensures j <= |s| ==> r == s[i..j]
    ensures i >= |s| ==> r == ""
  {
    s[Min(i, |s|)..Min(j, |s|)]
  }

  /** `int(hint[i:i + 2], 16)`. At most two characters are read, so the
      value is a byte, or minus one hex digit when the pair is `-` and a
      digit. */
  function HexPair(hint: string, i: nat): (r: Result<int>)
    ensures r.Ok? <==> ParseInt(PySlice(hint, i, i + 2), 16).Some?
    ensures r.Ok? ==> r.value == ParseInt(PySlice(hint, i, i + 2), 16).value
    ensures r.Err? ==> r.error == InvalidIntLiteral(PySlice(hint, i, i + 2), 16)
    ensures r.Ok? ==> -15 <= r.value <= 255
  {
    var pair := PySlice(hint, i, i + 2);
    var n := ParseInt(pair, 16);
    if n.None? then Err(InvalidIntLiteral(pair, 16))
    else
      ShortLiteralRange(pair);
      Ok(n.value)
  }

  /** `int(t, 16)` of a text of at most two characters lies in -15..255. */
  lemma ShortLiteralRange(t: string)
    requires |t| <= 2 && ParseInt(t, 16).Some?
    ensures -15 <= ParseInt(t, 16).value <= 255
  {
    var s := Strip(t);
    var u := Unsigned(s);
    assert |s| <= 2;
    var v := DigitsValue(u, 16);
    if Sign(s) == -1 {
      assert |u| <= 1;
      assert Power(16, |u|) <= 16;
    } else {
      assert |u| <= 2;
      assert Power(16, |u|) <= 256 by {
        if |u| == 2 { assert Power(16, 2) == 256; }
      }
    }
  }

  /** `tuple(int(hint[i:i + 2], 16) for i in (0, 2, 4))`: the pairs are
      converted left to right and the first bad one is the error. */
  function HexRgb(hint: string): (r: Result<Rgb>)
    ensures r.Ok? <==> HexPair(hint, 0).Ok? && HexPair(hint, 2).Ok? && HexPair(hint, 4).Ok?
    ensures r.Ok? ==> r.value == Rgb(HexPair(hint, 0).value, HexPair(hint, 2).value, HexPair(hint, 4).value)
    ensures HexPair(hint, 0).Err? ==> r == Err(HexPair(hint, 0).error)
    ensures HexPair(hint, 0).Ok? && HexPair(hint, 2).Err? ==> r == Err(HexPair(hint, 2).error)
    ensures HexPair(hint, 0).Ok? && HexPair(hint, 2).Ok? && HexPair(hint, 4).Err? ==> r == Err(HexPair(hint, 4).error)
  {
    var red :- HexPair(hint, 0);
    var green :- HexPair(hint, 2);
    var blue :- HexPair(hint, 4);
    Ok(Rgb(red, green, blue))
  }

  /** Six hex digits. */
  predicate IsHexColor(hint: string) {
    |hint| == 6 && forall i :: 0 <= i < 6 ==> IsHexDigit(hint[i])
  }

  /** Two hex digits at `i` convert to their value, a byte. */
  lemma HexPairDigits(hint: string, i: nat)
    requires i + 2 <= |hint| && IsHexDigit(hint[i]) && IsHexDigit(hint[i + 1])
    ensures HexPair(hint, i) == Ok(16 * DigitOf(hint[i]) + DigitOf(hint[i + 1]))
  {
    var pair := PySlice(hint, i, i + 2);
    assert pair == hint[i..i + 2];
    assert pair[0] == hint[i] && pair[1] == hint[i + 1];
    ParseTwoHexDigits(pair);
  }

  /** Two hex digits convert to a byte. */
  lemma HexPairByte(hint: string, i: nat)
    requires i + 2 <= |hint| && IsHexDigit(hint[i]) && IsHexDigit(hint[i + 1])
    ensures HexPair(hint, i).Ok? && 0 <= HexPair(hint, i).value <= 255
  {
    HexPairDigits(hint, i);
  }

  /** A hint of six hex digits converts, to three components in 0..255. */
  lemma HexColorComponents(hint: string)
    requires IsHexColor(hint)
    ensures HexRgb(hint).Ok?
    ensures var c := HexRgb(hint).value;
      0 <= c.red <= 255 && 0 <= c.green <= 255 && 0 <= c.blue <= 255
  {
    HexPairByte(hint, 0);
    HexPairByte(hint, 2);
    HexPairByte(hint, 4);
  }

  /** A colour written as three upper-case hex bytes reads back as itself. */
  lemma HexRgbRoundTrip(red: nat, green: nat, blue: nat)
    requires red < 256 && green < 256 && blue < 256
    ensures HexRgb(HexByte(red) + HexByte(green) + HexByte(blue)) == Ok(Rgb(red, green, blue))
  {
    var hint := HexByte(red) + HexByte(green) + HexByte(blue);
    assert PySlice(hint, 0, 2) == HexByte(red);
    assert PySlice(hint, 2, 4) == HexByte(green);
    assert PySlice(hint, 4, 6) == HexByte(blue);
    ParseHexByte(red);
    ParseHexByte(green);
    ParseHexByte(blue);
  }

  /** A four-character hint fails on its third pair, which is the empty
      slice `hint[4:6]`. */
  lemma ShortHintError()
    ensures HexRgb("ABCD") == Err(InvalidIntLiteral("", 16))
  {
    HexPairDigits("ABCD", 0);
    HexPairDigits("ABCD", 2);
    assert PySlice("ABCD", 4, 6) == "";
  }

  /** A hint that Python treats as true: present and non-empty. */
  predicate HasHint(c: Classification) {
    c.colorHint.Some? && c.colorHint.value != ""
  }

  /** No classification after index `i` carries both the value and a hint. */
  predicate LastHinted(cs: seq<Classification>, i: int) {
    && 0 <= i < |cs|
    && HasHint(cs[i])
    && (forall j :: i < j < |cs| && HasHint(cs[j]) ==> cs[j].value != cs[i].value)
  }

  /** Every hint converts under `f`. */
  predicate HintsConvert(cs: seq<Classification>, f: string -> Result<Rgb>) {
    forall i :: 0 <= i < |cs| && HasHint(cs[i]) ==> f(cs[i].colorHint.value).Ok?
  }

  /** The classification at `i` is the first whose hint does not convert. */
  predicate FirstBadHint(cs: seq<Classification>, f: string -> Result<Rgb>, i: int) {
    && 0 <= i < |cs|
    && HasHint(cs[i])
    && f(cs[i].colorHint.value).Err?
    && (forall j :: 0 <= j < i && HasHint(cs[j]) ==> f(cs[j].colorHint.value).Ok?)
  }

  /** The values that carry a hint. */
  function HintedValues(cs: seq<Classification>): set<int> {
    set i | 0 <= i < |cs| && HasHint(cs[i]) :: cs[i].value
  }

  /** The colormap comprehension with the colour conversion `f`: entries
      are added in order, and the first hint that does not convert is the
      error. */
  function HintMap(cs: seq<Classification>, f: string -> Result<Rgb>): (r: Result<map<int, Rgb>>)
    ensures r.Ok? <==> HintsConvert(cs, f)
    ensures r.Err? ==> exists i :: FirstBadHint(cs, f, i) && r.error == f(cs[i].colorHint.value).error
    ensures forall i :: FirstBadHint(cs, f, i) ==> r == Err(f(cs[i].colorHint.value).error)
  {
    if cs == [] then Ok(map[])
    else
      var n := |cs| - 1;
      var c := cs[n];
      assert forall j :: 0 <= j < n ==> cs[..n][j] == cs[j];
      match HintMap(cs[..n], f)
      case Err(e) => Err(e)
      case Ok(prev) =>
        if !HasHint(c) then Ok(prev)
        else
          match f(c.colorHint.value)
          case Err(e) => Err(e)
          case Ok(rgb) => Ok(prev[c.value := rgb])
  }

  /** The keys are exactly the values that carry a hint. */
  lemma {:induction false} HintMapKeys(cs: seq<Classification>, f: string -> Result<Rgb>)
    requires HintMap(cs, f).Ok?
    ensures HintMap(cs, f).value.Keys == HintedValues(cs)
  {
    if cs != [] {
      var n := |cs| - 1;
      var init := cs[..n];
      assert forall j :: 0 <= j < n ==> init[j] == cs[j];
      HintMapKeys(init, f);
      assert HintedValues(cs) == HintedValues(init) + (if HasHint(cs[n]) then {cs[n].value} else {});
    }
  }

  /** A later classification with the same value overwrites an earlier one:
      each value maps to the colour of the last classification that has it
      and a hint. */
  lemma {:induction false} HintMapLastWins(cs: seq<Classification>, f: string -> Result<Rgb>, i: int)
    requires HintMap(cs, f).Ok? && LastHinted(cs, i)
    ensures cs[i].value in HintMap(cs, f).value
    ensures HintMap(cs, f).value[cs[i].value] == f(cs[i].colorHint.value).value
  {
    var n := |cs| - 1;
    var init := cs[..n];
    assert forall j :: 0 <= j < n ==> init[j] == cs[j];
    if i < n {
      assert LastHinted(init, i);
      HintMapLastWins(init, f, i);
    }
  }

  /** `{c.value: rgb(c.color_hint) for c in cs if c.color_hint}`. */
  function Colormap(cs: seq<Classification>): Result<map<int, Rgb>> {
    HintMap(cs, HexRgb)
  }

  /** The colormap holds exactly the values with a hint; each maps to the
      colour of the last classification with that value and a hint; and it
      is built exactly when every hint converts. */
  lemma ColormapEntries(cs: seq<Classification>)
    ensures Colormap(cs).Ok? <==> forall i :: 0 <= i < |cs| && HasHint(cs[i]) ==> HexRgb(cs[i].colorHint.value).Ok?
    ensures Colormap(cs).Ok? ==> Colormap(cs).value.Keys == set i | 0 <= i < |cs| && HasHint(cs[i]) :: cs[i].value
    ensures Colormap(cs).Ok? ==>
      forall i :: LastHinted(cs, i) ==> Colormap(cs).value[cs[i].value] == HexRgb(cs[i].colorHint.value).value
    ensures Colormap(cs).Err? ==>
      exists i :: FirstBadHint(cs, HexRgb, i) && Colormap(cs).error == HexRgb(cs[i].colorHint.value).error
    ensures forall i :: FirstBadHint(cs, HexRgb, i) ==> Colormap(cs) == Err(HexRgb(cs[i].colorHint.value).error)
  {
    if Colormap(cs).Ok? {
      HintMapKeys(cs, HexRgb);
      forall i | LastHinted(cs, i) ensures Colormap(cs).value[cs[i].value] == HexRgb(cs[i].colorHint.value).value {
        HintMapLastWins(cs, HexRgb, i);
      }
    }
  }

  /** The slices of a collection, as (key, datetime interval) pairs. */
  function Datetimes(id: CollectionId): seq<(string, string)> {
    if id == Annual then
      [ ("2000", YearInterval("2000")), ("2005", YearInterval("2005")), ("2010", YearInterval("2010")),
        ("2015", YearInterval("2015")), ("2020", YearInterval("2020")) ]
    else [(ChangeKey, ChangeInterval)]
  }

  const AnnualYears: set<string> := {"2000", "2005", "2010", "2015", "2020"}
  const ChangeKey: string := "2000-2020 change"
  const ChangeInterval: string := "2000-01-01T00:00:00Z/2020-12-31T23:59:59Z"

  /** The whole of year `y`, as an ISO 8601 interval. */
  function YearInterval(y: string): string {
    y + "-01-01T00:00:00Z/" + y + "-12-31T23:59:59Z"
  }

  /** `{key: slice for key, datetime in slices}`, added in order. */
  function Slices(slices: seq<(string, string)>, colormap: map<int, Rgb>): (r: map<string, RenderSlice>)
    ensures forall k :: k in r ==> r[k].assets == [AssetName] && r[k].colormap == colormap
  {
    if slices == [] then map[]
    else
      var n := |slices| - 1;
      Slices(slices[..n], colormap)[slices[n].0 := RenderSlice([AssetName], slices[n].1, colormap)]
  }

  /** The keys of the pairs. */
  function SliceKeys(slices: seq<(string, string)>): set<string> {
    set i | 0 <= i < |slices| :: slices[i].0
  }

  /** No pair after index `i` has the key of pair `i`. */
  predicate LastKey(slices: seq<(string, string)>, i: int) {
    && 0 <= i < |slices|
    && (forall j :: i < j < |slices| ==> slices[j].0 != slices[i].0)
  }

  /** One slice per key. */
  lemma {:induction false} SlicesKeys(slices: seq<(string, string)>, colormap: map<int, Rgb>)
    ensures Slices(slices, colormap).Keys == SliceKeys(slices)
  {
    if slices != [] {
      var n := |slices| - 1;
      SlicesKeys(slices[..n], colormap);
      KeysSnoc(slices);
    }
  }

  /** The keys of the pairs, split into those before the last pair and the
      last one's. */
  lemma KeysSnoc(slices: seq<(string, string)>)
    requires slices != []
    ensures var n := |slices| - 1; SliceKeys(slices) == SliceKeys(slices[..n]) + {slices[n].0}
  {
    var n := |slices| - 1;
    forall k | k in SliceKeys(slices) ensures k in SliceKeys(slices[..n]) + {slices[n].0} {
      var i :| 0 <= i < |slices| && slices[i].0 == k;
      if i < n {
        assert slices[..n][i].0 == k;
      }
    }
    forall k | k in SliceKeys(slices[..n]) ensures k in SliceKeys(slices) {
      var i :| 0 <= i < n && slices[..n][i].0 == k;
      assert slices[i].0 == k;
    }
  }

  /** A later pair with the same key overwrites an earlier one: each key
      gets the interval of its last pair. */
  lemma {:induction false} SlicesLastWins(slices: seq<(string, string)>, colormap: map<int, Rgb>, i: int)
    requires LastKey(slices, i)
    ensures slices[i].0 in Slices(slices, colormap)
    ensures Slices(slices, colormap)[slices[i].0].datetime == slices[i].1
  {
    var n := |slices| - 1;
    if i < n {
      var init := slices[..n];
      assert forall j :: 0 <= j < n ==> init[j] == slices[j];
      assert LastKey(init, i);
      SlicesLastWins(init, colormap, i);
    }
  }

  /** `renders`: the slices of the collection, each with the same colormap;
      it fails exactly when the colormap does. */
  function Renders(id: CollectionId, cs: seq<Classification>): (r: Result<map<string, RenderSlice>>)
    ensures r.Ok? <==> Colormap(cs).Ok?
    ensures r.Err? ==> r.error == Colormap(cs).error
    ensures r.Ok? ==> forall k :: k in r.value ==> r.value[k].assets == [AssetName] && r.value[k].colormap == Colormap(cs).value
  {
    var colormap :- Colormap(cs);
    Ok(Slices(Datetimes(id), colormap))
  }

  /** The annual collection has one slice for each of the five years, each
      covering that year. */
  lemma RendersAnnual(cs: seq<Classification>)
    requires Colormap(cs).Ok?
    ensures Renders(Annual, cs).value.Keys == AnnualYears
    ensures forall y :: y in Renders(Annual, cs).value ==> Renders(Annual, cs).value[y].datetime == YearInterval(y)
  {
    var d := Datetimes(Annual);
    var colormap := Colormap(cs).value;
    var r := Renders(Annual, cs).value;
    assert r == Slices(d, colormap);
    AnnualSlices();
    SlicesKeys(d, colormap);
    forall y | y in r ensures r[y].datetime == YearInterval(y) {
      var i :| 0 <= i < |d| && d[i].0 == y;
      SlicesLastWins(d, colormap, i);
    }
  }

  /** The annual slices have distinct keys, the five years, and each covers
      its year. */
  lemma AnnualSlices()
    ensures var d := Datetimes(Annual);
      && SliceKeys(d) == AnnualYears
      && (forall i :: 0 <= i < |d| ==> LastKey(d, i))
      && (forall i :: 0 <= i < |d| ==> d[i].1 == YearInterval(d[i].0))
  {
    var d := Datetimes(Annual);
    assert d[0].0 == "2000" && d[1].0 == "2005" && d[2].0 == "2010" && d[3].0 == "2015" && d[4].0 == "2020";
    assert "2000" != "2005" && "2000" != "2010" && "2000" != "2015" && "2000" != "2020";
    assert "2005" != "2010" && "2005" != "2015" && "2005" != "2020";
    assert "2010" != "2015" && "2010" != "2020" && "2015" != "2020";
    assert SliceKeys(d) == AnnualYears;
  }

  /** The change collection has a single slice, covering 2000 to 2020. */
  lemma RendersChange(cs: seq<Classification>)
    requires Colormap(cs).Ok?
    ensures Renders(Change, cs).value.Keys == {"2000-2020 change"}
    ensures Renders(Change, cs).value["2000-2020 change"].datetime == "2000-01-01T00:00:00Z/2020-12-31T23:59:59Z"
  {
    var d := Datetimes(Change);
    var colormap := Colormap(cs).value;
    assert Renders(Change, cs).value == Slices(d, colormap);
    SlicesKeys(d, colormap);
    assert SliceKeys(d) == {ChangeKey} by {
      assert d[0].0 == ChangeKey;
    }
    SlicesLastWins(d, colormap, 0);
  }
}
