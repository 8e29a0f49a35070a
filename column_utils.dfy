/** Column defaults. */
module ColumnUtils {
  import opened Wrappers
  import opened Types

  /** `getDefaultColumnConfig`: a column is named by its key and editable. */
  function GetDefaultColumnConfig(columnName: string): (r: ColumnConfig)
    ensures r.name == Some(columnName) && r.editable == Some(true)
  {
    ColumnConfig(Some(true), Some(columnName))
  }
}
