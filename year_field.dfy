/** The captured `year` field of an href: the annual sub-format `{year:4d}`
    (exactly four digits) and the change sub-format
    `{start_year:4d}-{end_year:4d}change`, and the UTC timestamps built from
    them. */
module YearField {
  import opened Base
  import opened Text

  /** A UTC `datetime`. */
  datatype DateTime = DateTime(year: int, month: int, day: int, hour: int, minute: int, second: int)

  /** `datetime(year, month, day, hour, minute, second, tzinfo=timezone.utc)`.
      Every call in the package passes a fixed, valid month, day and time, so
      only the year can be rejected: Python accepts 1..9999. */
  function MakeDateTime(year: int, month: int, day: int, hour: int, minute: int, second: int): (r: Result<DateTime>)
    ensures r.Ok? <==> 1 <= year <= 9999
    ensures r.Ok? ==> r.value == DateTime(year, month, day, hour, minute, second)
    ensures r.Err? ==> r.error == YearOutOfRange(year)
  {
    if 1 <= year <= 9999 then Ok(DateTime(year, month, day, hour, minute, second))
    else Err(YearOutOfRange(year))
  }

  /** Exactly four decimal digits. */
  predicate IsFourDigits(v: string) {
    |v| == 4 && AllDigits(v, 10)
  }

  /** The value of `{year:4d}` parsed from `v`, if it matches. */
  function AnnualFormat(v: string): (r: Option<int>)
    ensures r.Some? <==> IsFourDigits(v)
    ensures r.Some? ==> r.value == DigitsValue(v, 10) && 0 <= r.value <= 9999
  {
    if IsFourDigits(v) then Some(DigitsValue(v, 10)) else None
  }

  /** The start and end years of `{start_year:4d}-{end_year:4d}change`
      parsed from `v`, if it matches; like every `parse` pattern, the
      literal `change` is matched without regard to letter case. */
  function ChangeFormat(v: string): (r: Option<(int, int)>)
    ensures r.Some? <==>
      |v| == 15 && IsFourDigits(v[..4]) && v[4] == '-' && IsFourDigits(v[5..9]) && EqualsIgnoringCase(v[9..], "change")
    ensures r.Some? ==> r.value == (DigitsValue(v[..4], 10), DigitsValue(v[5..9], 10))
    ensures r.Some? ==> 0 <= r.value.0 <= 9999 && 0 <= r.value.1 <= 9999
  {
    if |v| == 15 && v[4] == '-' && EqualsIgnoringCase(v[9..], "change")
      && AnnualFormat(v[..4]).Some? && AnnualFormat(v[5..9]).Some?
    then Some((AnnualFormat(v[..4]).value, AnnualFormat(v[5..9]).value))
    else None
  }

  /** What a year field denotes. */
  datatype YearSpec = AnnualYear(year: int) | ChangeSpan(start: int, end: int)

  /** The change sub-format is tried first, then the annual one; a value that
      matches neither is an error naming it. */
  function InterpretYear(v: string): (r: Result<YearSpec>)
    ensures ChangeFormat(v).Some? ==>
      r == Ok(ChangeSpan(ChangeFormat(v).value.0, ChangeFormat(v).value.1))
    ensures ChangeFormat(v).None? && AnnualFormat(v).Some? ==> r == Ok(AnnualYear(AnnualFormat(v).value))
    ensures r.Err? <==> ChangeFormat(v).None? && AnnualFormat(v).None?
    ensures r.Err? ==> r.error == YearNotParsed(v)
  {
    var change := ChangeFormat(v);
    var annual := AnnualFormat(v);
    if change.Some? then Ok(ChangeSpan(change.value.0, change.value.1))
    else if annual.Some? then Ok(AnnualYear(annual.value))
    else Err(YearNotParsed(v))
  }

  /** A value never matches both sub-formats, so trying the change format
      first decides nothing by itself. */
  lemma FormatsExclusive(v: string)
    ensures !(ChangeFormat(v).Some? && AnnualFormat(v).Some?)
  {
  }

  // ---------------------------------------------------------------------------
  // Writing years: the inverse of the sub-formats

  /** A year as four digits, zero-padded. */
  function Year4(y: nat): (s: string)
    requires y <= 9999
    ensures IsFourDigits(s)
  {
    [DecimalChar(y / 1000), DecimalChar(y / 100 % 10), DecimalChar(y / 10 % 10), DecimalChar(y % 10)]
  }

  lemma Year4Value(y: nat)
    requires y <= 9999
    ensures DigitsValue(Year4(y), 10) == y
  {
    var s := Year4(y);
    assert s[..3][..2][..1] == s[..1];
    assert s[..3][..2] == s[..2];
    assert DigitsValue(s[..1], 10) == y / 1000;
    assert DigitsValue(s[..2], 10) == y / 100;
    assert DigitsValue(s[..3], 10) == y / 10;
  }

  /** The year field of a change asset covering `start` to `end`. */
  function ChangeText(start: nat, end: nat): string
    requires start <= 9999 && end <= 9999
  {
    Year4(start) + "-" + Year4(end) + "change"
  }

  lemma InterpretYear4(y: nat)
    requires y <= 9999
    ensures InterpretYear(Year4(y)) == Ok(AnnualYear(y))
  {
    Year4Value(y);
  }

  lemma InterpretChangeText(start: nat, end: nat)
    requires start <= 9999 && end <= 9999
    ensures InterpretYear(ChangeText(start, end)) == Ok(ChangeSpan(start, end))
  {
    InterpretChangeSuffix(start, end, "change");
  }

  /** The same span with the suffix `change` in any letter case. */
  lemma InterpretChangeSuffix(start: nat, end: nat, suffix: string)
    requires start <= 9999 && end <= 9999
    requires EqualsIgnoringCase(suffix, "change")
    ensures InterpretYear(Year4(start) + "-" + Year4(end) + suffix) == Ok(ChangeSpan(start, end))
  {
    var v := Year4(start) + "-" + Year4(end) + suffix;
    assert v[..4] == Year4(start);
    assert v[5..9] == Year4(end);
    assert v[9..] == suffix;
    Year4Value(start);
    Year4Value(end);
  }

  /** `2000-2020CHANGE` is the change span 2000 to 2020. */
  lemma UpperCaseChangeSuffix()
    ensures InterpretYear("2000-2020CHANGE") == Ok(ChangeSpan(2000, 2020))
  {
    assert Year4(2000) == "2000" && Year4(2020) == "2020";
    assert EqualsIgnoringCase("CHANGE", "change");
    InterpretChangeSuffix(2000, 2020, "CHANGE");
    assert Year4(2000) + "-" + Year4(2020) + "CHANGE" == "2000-2020CHANGE";
  }

  /** Four digits are the zero-padded writing of their value. */
  lemma Year4OfDigits(v: string)
    requires IsFourDigits(v)
    ensures DigitsValue(v, 10) <= 9999 && Year4(DigitsValue(v, 10)) == v
  {
    var d0, d1, d2, d3 := DigitOf(v[0]), DigitOf(v[1]), DigitOf(v[2]), DigitOf(v[3]);
    assert v[..3][..2][..1] == v[..1];
    assert v[..3][..2] == v[..2];
    assert v[..1][..0] == [];
    assert DigitsValue(v[..1], 10) == d0;
    assert DigitsValue(v[..2], 10) == 10 * d0 + d1;
    assert DigitsValue(v[..3], 10) == 100 * d0 + 10 * d1 + d2;
    var y := DigitsValue(v, 10);
    assert y == 1000 * d0 + 100 * d1 + 10 * d2 + d3;
    assert y / 1000 == d0;
    assert y / 100 == 10 * d0 + d1;
    assert y / 10 == 100 * d0 + 10 * d1 + d2;
    assert y / 100 % 10 == d1;
    assert y / 10 % 10 == d2;
    assert y % 10 == d3;
    assert Year4(y) == [v[0], v[1], v[2], v[3]];
  }

  /** A year field reads as annual year `y` exactly when it is `y` written
      with four digits. */
  lemma InterpretYearAnnualIff(v: string, y: int)
    ensures InterpretYear(v) == Ok(AnnualYear(y)) <==> 0 <= y <= 9999 && v == Year4(y)
  {
    if InterpretYear(v) == Ok(AnnualYear(y)) {
      Year4OfDigits(v);
    }
    if 0 <= y <= 9999 && v == Year4(y) {
      InterpretYear4(y);
    }
  }

  /** A year field reads as the change span from `s` to `e` exactly when it
      is `s` and `e` written with four digits around `-`, followed by
      `change` in any letter case. */
  lemma InterpretYearChangeIff(v: string, s: int, e: int)
    ensures InterpretYear(v) == Ok(ChangeSpan(s, e)) <==>
      && 0 <= s <= 9999 && 0 <= e <= 9999 && |v| == 15
      && v[..9] == Year4(s) + "-" + Year4(e) && EqualsIgnoringCase(v[9..], "change")
  {
    if InterpretYear(v) == Ok(ChangeSpan(s, e)) {
      Year4OfDigits(v[..4]);
      Year4OfDigits(v[5..9]);
      assert v[..9] == v[..4] + [v[4]] + v[5..9];
    }
    if && 0 <= s <= 9999 && 0 <= e <= 9999 && |v| == 15
       && v[..9] == Year4(s) + "-" + Year4(e) && EqualsIgnoringCase(v[9..], "change") {
      assert v == v[..9] + v[9..];
      InterpretChangeSuffix(s, e, v[9..]);
    }
  }

  /** Five digits, and a change span whose end year has five digits, are
      rejected. */
  lemma RejectsFiveDigitYears()
    ensures InterpretYear("20000") == Err(YearNotParsed("20000"))
    ensures InterpretYear("2000-20200change") == Err(YearNotParsed("2000-20200change"))
  {
    var v := "2000-20200change";
    assert |v| == 16;
  }
}
