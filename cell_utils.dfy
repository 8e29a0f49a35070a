/** Location resolution between a rendered cell and its logical address
    (row, column, id), where the id joins the row's decimal text and the
    column key with the separator '⨯'. */
module CellUtils {
  import opened Wrappers
  import opened JsRuntime
  import opened Types
  import opened Dom

  /** '⨯' (U+2A2F), the id separator; `String` of a number never contains it. */
  const ID_SEPARATOR: char := '\U{2A2F}'

  /** `${row}⨯${column}`. */
  function LocationId(row: JsNumber, column: string): string {
    NumberToString(row) + [ID_SEPARATOR] + column
  }

  /** Reads an id back: the text before the first separator is the row, the
      rest is the column. */
  function ParseId(id: string): Option<(JsNumber, string)> {
    var k := FindIndex(id, (ch: char) => ch == ID_SEPARATOR);
    if k < 0 then None else Some((ToNumber(id[..k]), id[k + 1..]))
  }

  /** Every derived id reads back as the row and column it was made from. */
  lemma IdRoundTrip(row: JsNumber, column: string)
    ensures ParseId(LocationId(row, column)) == Some((row, column))
  {
    var text := NumberToString(row);
    var id := LocationId(row, column);
    var isSep := (ch: char) => ch == ID_SEPARATOR;
    assert id[|text|] == ID_SEPARATOR;
    forall j | 0 <= j < |text| ensures !isSep(id[j]) {
      assert id[j] == text[j] && IsNumberChar(text[j]);
    }
    var k := FindIndex(id, isSep);
    assert k == |text|;
    assert id[..k] == text && id[k + 1..] == column;
    NumberRoundTrip(row);
  }

  /** Two locations have the same id exactly when they have the same row and
      the same column. */
  lemma IdInjective(row1: JsNumber, column1: string, row2: JsNumber, column2: string)
    ensures LocationId(row1, column1) == LocationId(row2, column2) <==> row1 == row2 && column1 == column2
  {
    IdRoundTrip(row1, column1);
    IdRoundTrip(row2, column2);
  }

  /** `getLocationFromCell`: the row is `Number` of `data-emt-y` and the
      column is `data-emt-x`. */
  function GetLocationFromCell(c: Cell): (loc: CellLocation)
    ensures loc.row == ToNumber(c.y) && loc.column == c.x
  {
    var row := ToNumber(c.y);
    CellLocation(row, c.x, LocationId(row, c.x))
  }

  /** A cell's location reads back: its id parses as its row and column, and
      a row attribute that `String` wrote gives that row again. */
  lemma LocationReadsBack(c: Cell)
    ensures var loc := GetLocationFromCell(c);
      ParseId(loc.id) == Some((loc.row, loc.column)) &&
      forall x :: c.y == NumberToString(x) ==> loc.row == x
  {
    var loc := GetLocationFromCell(c);
    IdRoundTrip(loc.row, loc.column);
    forall x | c.y == NumberToString(x) ensures loc.row == x {
      NumberRoundTrip(x);
    }
  }

  /** A cell's id reads back as the cell's row and column, so two cells have
      the same id exactly when their rows and columns are equal. */
  lemma LocationIdOfCell(c: Cell, d: Cell)
    ensures var loc := GetLocationFromCell(c);
      ParseId(loc.id) == Some((loc.row, loc.column))
    ensures GetLocationFromCell(c).id == GetLocationFromCell(d).id <==>
      ToNumber(c.y) == ToNumber(d.y) && c.x == d.x
  {
    IdRoundTrip(ToNumber(c.y), c.x);
    IdInjective(ToNumber(c.y), c.x, ToNumber(d.y), d.x);
  }

  /** Whether a cell's attributes are `String(row)` and `column`. */
  predicate AtLocation(c: Cell, row: JsNumber, column: string) {
    c.y == NumberToString(row) && c.x == column
  }

  /** `getCellFromLocation`: the first cell, in list order, whose attributes
      match the location's row and column (the id is not consulted), or
      undefined when none does. */
  function GetCellFromLocation(location: CellLocation, cells: seq<Cell>): (r: Option<Cell>)
    ensures r.None? <==> forall j :: 0 <= j < |cells| ==> !AtLocation(cells[j], location.row, location.column)
    ensures r.Some? ==>
      exists i :: 0 <= i < |cells| && cells[i] == r.value &&
        AtLocation(cells[i], location.row, location.column) &&
        forall j :: 0 <= j < i ==> !AtLocation(cells[j], location.row, location.column)
  {
    var p := (c: Cell) => AtLocation(c, location.row, location.column);
    var k := FindIndex(cells, p);
    assert Find(cells, p) == if k < 0 then None else Some(cells[k]);
    Find(cells, p)
  }

  /** Locating a cell and looking the location up again gives that cell back,
      when its row text is canonical decimal and no earlier cell carries the
      same attributes. */
  lemma LocateRoundTrip(c: Cell, cells: seq<Cell>, i: nat)
    requires i < |cells| && cells[i] == c
    requires NumberToString(ToNumber(c.y)) == c.y
    requires forall j :: 0 <= j < i ==> !(cells[j].y == c.y && cells[j].x == c.x)
    ensures GetCellFromLocation(GetLocationFromCell(c), cells) == Some(c)
  {
    var loc := GetLocationFromCell(c);
    var r := GetCellFromLocation(loc, cells);
    assert AtLocation(cells[i], loc.row, loc.column);
    var k :| 0 <= k < |cells| && cells[k] == r.value && AtLocation(cells[k], loc.row, loc.column) &&
      forall j :: 0 <= j < k ==> !AtLocation(cells[j], loc.row, loc.column);
    assert k == i;
  }
}
