/** The records that cross the table's boundary: cell locations, the
    change-set emitted on every commit, and the per-column configuration. */
module Types {
  import opened Wrappers
  import opened JsRuntime

  /** A cell's logical address. `row` is `Number` of the row attribute (NaN
      when that text is not a number); `id` is derived from row and column. */
  datatype CellLocation = CellLocation(row: JsNumber, column: string, id: string)

  /** Reserved for a creation flow; every change-set built here leaves it empty. */
  datatype CellDataCreation = CellDataCreation(location: CellLocation, value: string)

  /** One edited cell: where, what it held before the edit, what it holds now. */
  datatype CellDataChange = CellDataChange(location: CellLocation, oldValue: string, value: string)

  /** The change-set passed to `beforeChange` and emitted to subscribers. */
  datatype EmtDataChange = EmtDataChange(
    created: seq<CellDataCreation>,
    updated: seq<CellDataChange>,
    deleted: seq<CellLocation>)

  /** The caller's interception hook: returns the change-set to apply (possibly
      rewritten) or `None` (JavaScript `null`) to veto it. */
  type BeforeChange = EmtDataChange -> Option<EmtDataChange>

  /** A column's options; both are optional properties (`None` = absent). */
  datatype ColumnConfig = ColumnConfig(editable: Option<bool>, name: Option<string>)

  /** Column options by column key. */
  type ColumnsConfig = map<string, ColumnConfig>

  /** The caller-supplied configuration. `afterChanged` is not a field here: its
      calls are the emissions recorded by the table state. */
  datatype EmtConfig = EmtConfig(columns: Option<ColumnsConfig>, beforeChange: Option<BeforeChange>)
}
