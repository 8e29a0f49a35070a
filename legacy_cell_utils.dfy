/** The earlier, id-less location resolver of the packaged library: a
    location is only a row and a column. */
module LegacyCellUtils {
  import opened Wrappers
  import opened JsRuntime
  import opened Dom

  /** The packaged library's location: no id. */
  datatype Location = Location(row: JsNumber, column: string)

  /** `getLocationFromCell`: row is `Number` of `data-emt-y`, column is
      `data-emt-x`; a row text that `String` wrote reads back as that row. */
  function GetLocationFromCell(c: Cell): (loc: Location)
    ensures loc.row == ToNumber(c.y) && loc.column == c.x
    ensures forall x :: c.y == NumberToString(x) ==> loc.row == x
  {
    forall x | c.y == NumberToString(x) ensures ToNumber(c.y) == x {
      NumberRoundTrip(x);
    }
    Location(ToNumber(c.y), c.x)
  }

  predicate AtLocation(c: Cell, location: Location) {
    c.y == NumberToString(location.row) && c.x == location.column
  }

  /** `getCellFromLocation`: the first cell whose attributes are
      `String(row)` and `column`, or undefined when none matches. */
  function GetCellFromLocation(location: Location, cells: seq<Cell>): (r: Option<Cell>)
    ensures r.None? <==> forall j :: 0 <= j < |cells| ==> !AtLocation(cells[j], location)
    ensures r.Some? ==>
      exists i :: 0 <= i < |cells| && cells[i] == r.value &&
        AtLocation(cells[i], location) && forall j :: 0 <= j < i ==> !AtLocation(cells[j], location)
  {
    var p := (c: Cell) => AtLocation(c, location);
    var k := FindIndex(cells, p);
    assert Find(cells, p) == if k < 0 then None else Some(cells[k]);
    Find(cells, p)
  }

  /** The first-match round trip, as for the id-carrying resolver. */
  lemma LocateRoundTrip(c: Cell, cells: seq<Cell>, i: nat)
    requires i < |cells| && cells[i] == c
    requires NumberToString(ToNumber(c.y)) == c.y
    requires forall j :: 0 <= j < i ==> !(cells[j].y == c.y && cells[j].x == c.x)
    ensures GetCellFromLocation(GetLocationFromCell(c), cells) == Some(c)
  {
    var loc := GetLocationFromCell(c);
    var r := GetCellFromLocation(loc, cells);
    assert AtLocation(cells[i], loc);
    var k :| 0 <= k < |cells| && cells[k] == r.value && AtLocation(cells[k], loc) &&
      forall j :: 0 <= j < k ==> !AtLocation(cells[j], loc);
    assert k == i;
  }
}
