/** Turning the rows of a classes table into classification records, as
    `_load_classifications` does for each row of the CSV file. */
module Classifications {
  import opened Base
  import opened Text

  /** One row of a classes table, by column: `value`, `general_class`,
      `class`, `sub_class` and `color_hint`. */
  datatype Row = Row(value: string, generalClass: string, className: string, subClass: string, colorHint: string)

  /** A classification entry of the classification extension. */
  datatype Classification = Classification(
    value: int,
    name: string,
    description: string,
    nodata: bool,
    colorHint: Option<string>)

  /** The value a sentinel row carries for "no data". */
  const NoDataValue: int := 255

  /** `class - sub_class`, or just `class` when the sub-class is blank. */
  function Description(className: string, subClass: string): (d: string)
    ensures Strip(subClass) != "" ==> d == className + " - " + subClass
    ensures Strip(subClass) == "" ==> d == className
  {
    if Strip(subClass) != "" then className + " - " + subClass else className
  }

  /** The colour hint of a row: absent when the cell is empty, otherwise the
      cell without surrounding whitespace (which may leave it empty). */
  function ColorHint(raw: string): (h: Option<string>)
    ensures h.None? <==> raw == ""
    ensures h.Some? ==> h.value == Strip(raw)
  {
    if raw == "" then None else Some(Strip(raw))
  }

  /** The description leaves the sub-class out exactly when its cell is
      blank: empty or whitespace only. */
  lemma DescriptionBlankSubClass(className: string, subClass: string)
    ensures (forall i :: 0 <= i < |subClass| ==> IsSpace(subClass[i])) ==> Description(className, subClass) == className
    ensures (exists i :: 0 <= i < |subClass| && !IsSpace(subClass[i])) ==>
      Description(className, subClass) == className + " - " + subClass
  {
    StripEmptyIff(subClass);
  }

  /** An empty cell has no hint, a whitespace-only cell the empty hint, and
      a cell without surrounding whitespace is kept as it is. */
  lemma ColorHintCells(raw: string)
    ensures raw == "" ==> ColorHint(raw) == None
    ensures raw != "" && (forall i :: 0 <= i < |raw| ==> IsSpace(raw[i])) ==> ColorHint(raw) == Some("")
    ensures raw != "" && !IsSpace(raw[0]) && !IsSpace(raw[|raw| - 1]) ==> ColorHint(raw) == Some(raw)
  {
    StripEmptyIff(raw);
    if raw != "" && !IsSpace(raw[0]) && !IsSpace(raw[|raw| - 1]) {
      StripUnchanged(raw);
    }
  }

  /** One row: `int(row["value"])` fails on a cell that is not a decimal
      integer literal; the name is the slug of the three class columns
      joined by `__`. */
  function ConvertRow(row: Row, slugify: string -> string): (r: Result<Classification>)
    ensures r.Ok? <==> ParseInt(row.value, 10).Some?
    ensures r.Err? ==> r.error == InvalidIntLiteral(row.value, 10)
    ensures r.Ok? ==>
      && r.value.value == ParseInt(row.value, 10).value
      && r.value.name == slugify(Join("__", [row.generalClass, row.className, row.subClass]))
      && r.value.description == Description(row.className, row.subClass)
      && (r.value.nodata <==> r.value.value == NoDataValue)
      && r.value.colorHint == ColorHint(row.colorHint)
  {
    match ParseInt(row.value, 10)
    case None => Err(InvalidIntLiteral(row.value, 10))
    case Some(v) =>
      Ok(Classification(
        v,
        slugify(Join("__", [row.generalClass, row.className, row.subClass])),
        Description(row.className, row.subClass),
        v == NoDataValue,
        ColorHint(row.colorHint)))
  }

  /** Every element converts. */
  predicate AllConvert<R, C>(xs: seq<R>, f: R -> Result<C>) {
    forall i :: 0 <= i < |xs| ==> f(xs[i]).Ok?
  }

  /** Index `i` holds the first element that does not convert. */
  predicate FirstFailure<R, C>(xs: seq<R>, f: R -> Result<C>, i: int) {
    && 0 <= i < |xs|
    && f(xs[i]).Err?
    && (forall j :: 0 <= j < i ==> f(xs[j]).Ok?)
  }

  /** Converting element by element, in order, appending each result; the
      first element that does not convert ends the loop with its error. */
  function ConvertAll<R, C>(xs: seq<R>, f: R -> Result<C>): (r: Result<seq<C>>)
    ensures r.Ok? <==> AllConvert(xs, f)
    ensures r.Ok? ==>
      && |r.value| == |xs|
      && forall i :: 0 <= i < |xs| ==> r.value[i] == f(xs[i]).value
    ensures r.Err? ==> exists i :: FirstFailure(xs, f, i) && r.error == f(xs[i]).error
  {
    if xs == [] then Ok([])
    else
      var n := |xs| - 1;
      var prev := ConvertAll(xs[..n], f);
      var last := f(xs[n]);
      assert forall j :: 0 <= j < n ==> xs[..n][j] == xs[j];
      if prev.Err? then
        Err(prev.error)
      else if last.Err? then
        assert FirstFailure(xs, f, n);
        Err(last.error)
      else
        Ok(prev.value + [last.value])
  }

  /** `_load_classifications` on the rows of a table. */
  function LoadAll(rows: seq<Row>, slugify: string -> string): Result<seq<Classification>> {
    ConvertAll(rows, (row: Row) => ConvertRow(row, slugify))
  }

  /** The loaded table, row by row: it loads exactly when every value cell
      is an integer literal, and then holds one classification per row, in
      row order; otherwise the error names the value cell of the first row
      that is not. */
  lemma LoadAllRows(rows: seq<Row>, slugify: string -> string)
    ensures var r := LoadAll(rows, slugify);
      && (r.Ok? <==> forall i :: 0 <= i < |rows| ==> ParseInt(rows[i].value, 10).Some?)
      && (r.Ok? ==> |r.value| == |rows|)
      && (r.Ok? ==> forall i :: 0 <= i < |rows| ==>
            && r.value[i].value == ParseInt(rows[i].value, 10).value
            && r.value[i].name == slugify(Join("__", [rows[i].generalClass, rows[i].className, rows[i].subClass]))
            && r.value[i].description == Description(rows[i].className, rows[i].subClass)
            && (r.value[i].nodata <==> r.value[i].value == NoDataValue)
            && r.value[i].colorHint == ColorHint(rows[i].colorHint))
      && (r.Err? ==> exists i ::
            && 0 <= i < |rows|
            && ParseInt(rows[i].value, 10).None?
            && (forall j :: 0 <= j < i ==> ParseInt(rows[j].value, 10).Some?)
            && r.error == InvalidIntLiteral(rows[i].value, 10))
  {
    var f := (row: Row) => ConvertRow(row, slugify);
    var r := LoadAll(rows, slugify);
    assert forall i :: 0 <= i < |rows| ==> f(rows[i]) == ConvertRow(rows[i], slugify);
    if r.Err? {
      var i :| FirstFailure(rows, f, i) && r.error == f(rows[i]).error;
      assert ParseInt(rows[i].value, 10).None?;
    }
  }

  /** A row whose value cell is written from an integer converts back to
      that integer, and is the nodata row exactly when the integer is 255. */
  lemma ConvertWrittenRow(v: int, general: string, cls: string, sub: string, hint: string, slugify: string -> string)
    ensures var r := ConvertRow(Row(IntToDecimal(v), general, cls, sub, hint), slugify);
      && r.Ok?
      && r.value.value == v
      && (r.value.nodata <==> v == NoDataValue)
  {
    ParseDecimal(v);
  }
}
