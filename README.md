# Editable material table: the editing session, verified

This project models the core of ngx-editable-material-table, an Angular
table whose cells can be selected, edited in place, highlighted by column or
by dragging a rectangle, cleared, copied to the clipboard and navigated with
the arrow keys. The model covers:

- the session object `AppState`, with all of its operations, from
  `initConfig` to `navigateCell`;
- the selection primitives it calls: rectangle hit-testing, border cells,
  and the class and attribute updates that show selection and highlight;
- the location resolver, in both of its versions (with and without the
  derived id);
- the change-set constructors and the column defaults;
- the text side of the clipboard bridge.

A rendered cell is the class `Dom.Cell`:
- Its attributes `data-emt-x` and `data-emt-y`, its parent row and its layout
  box are constants, since the core never writes them.
- Its `innerHTML`, its `contentEditable` attribute and its class list are
  fields the operations update in place.
- `Dom.View` takes a snapshot of those three as a `CellView`.

`State.AppState` is a class with the source's fields (`allCells`,
`highlightedCells`, `selectedCell`, `selectedCellOriginalData` and the
validated configuration) and one method per source method. Its class
invariant `Valid()` says that a configuration, once set, lists each column
key once and agrees with its options. Each
state-changing method is proved against a specification written over values:
- A step function (`SelectStep`, `CommitStep`, `AcceptStep`, `DeleteStep`,
  `NavigateStep`, `KeyPressStep`, `RejectStep`) gives the new `Session`
  (the fields as a value) and the `Outcome`.
- A view function gives the new `CellView` of every cell the operation may
  touch.
- The method's `ensures` ties the object state to those functions.
- Lemmas (`SelectCellSpec`, `CommitApplied`, `CommitVetoed`,
  `DeletionRequestSpec`, `NavigationTargetSpec`, `ColumnLookupAfterInit`, …)
  state what the functions mean in the system's own terms.

Conventions the model follows:
- Every change-set emitted on the data-change stream is appended to a ghost
  log (`emitted`). Every column configuration published on the
  validated-config stream is appended to `published`.
- The caller's `beforeChange` hook is a function parameter returning `None`
  for a veto.
- Where the source throws `Invalid column: <key>` (from `getColumnConfig`),
  the method returns `Fail` with that message. Everything the method changed
  before the throw stays changed, as in the source. This matters in two
  places:
  - `selectCell` has already cleared the old selection and highlight;
  - `applyChanges` has already applied the updates before the unknown one.

Some of the session's behaviour is kept exactly as written, even where it
surprises; each item names the member whose contract states it:
- Highlighting only ever adds the `highlighted` class. The removal branch of
  `highlightCells` tests a cell against the very list being walked, so it
  never fires (`SelectionUtils.HighlightCells`, `SelectionUtils.AddHighlightClass`).
- Clicking a cell of a non-editable column still clears the old marks, but
  `selectedCell` and its saved content stay as they were (`State.SelectCellSpec`).
- Selecting a cell removes the highlight classes from the page, yet the
  `highlightedCells` list keeps its cells (`State.SelectCellSpec`).
- A deletion empties only cells found in `allCells`, whatever else the
  highlight holds (`State.DeletionTargets`).
- Committing a change-set leaves the selected cell selected. Only the saved
  content and the highlight are reset (`State.CommitApplied`).
- Moving left or right looks the current column up among the keys. A column
  missing from the keys counts as position -1: moving right from it reaches
  the first key, moving left reaches nothing
  (`State.NavigationFromUnlistedColumn`). A cell can only be selected in a
  known column, so this shows only after the configuration is replaced.

Dafny's integers are unbounded and the table's numbers are integers here.
`JsRuntime.ToNumber` models `Number(text)` on the attribute texts the table
writes: surrounding white space is ignored, the empty text is 0, an
optionally signed run of decimal digits is its value, and any other text is
NaN. `JsRuntime.NumberToString` models `String(number)` and template
interpolation.

## Model

| member | source | states |
|---|---|---|
| JsRuntime.Trim | src/lib/state.ts:87 | the trimmed text is no longer than the original and neither starts nor ends with white space |
| JsRuntime.TrimSpec | src/lib/state.ts:87 | `trim` keeps one contiguous slice of the text; everything cut before and after it is white space, and the kept text neither starts nor ends with white space |
| JsRuntime.TrimIdempotent | src/lib/state.ts:147-150 | trimming a trimmed text changes nothing, so the snapshot and the new value are compared on equal terms |
| JsRuntime.ToNumber | src/lib/libs/cell-utils.ts:4 | `Number` of a blank attribute text is 0, and only a text holding a minus sign gives a negative number |
| JsRuntime.ToNumberTrimmed | src/lib/libs/cell-utils.ts:4 | `Number` ignores the white space around the text |
| JsRuntime.NumberToString | src/lib/libs/cell-utils.ts:18 | `String` of a number is never empty and holds only digits, '-' and the letters of "NaN", so never the id separator |
| JsRuntime.Plus | src/lib/state.ts:239-242 | moving a row by ±1: NaN stays NaN, a number moves by exactly the offset |
| JsRuntime.NumberRoundTrip | src/lib/libs/cell-utils.ts:17-20 | `Number(String(row))` is `row` for every integer or NaN, which is what lets a location find its cell again |
| JsRuntime.SplitJoin | src/lib/libs/clipboard.ts:16-23 | splitting a joined text on the separator gives the parts back when no part holds the separator |
| JsRuntime.JoinSplit | src/lib/libs/clipboard.ts:16-23 | joining the parts of a split gives the text back |
| JsRuntime.FilterSelects | src/lib/state.ts:125 | `filter` keeps only elements satisfying the test, and every element satisfying it as often as it occurs, in list order |
| JsRuntime.FindIndex | src/lib/state.ts:245 | `findIndex` gives the first index satisfying the test, and -1 exactly when none does |
| JsRuntime.Find | src/lib/libs/cell-utils.ts:17-20 | `find` gives the first element in list order satisfying the test, and undefined exactly when none does |
| CellUtils.GetLocationFromCell | src/lib/libs/cell-utils.ts:3-11 | a cell's row is `Number` of its `data-emt-y` text and its column is its `data-emt-x` text |
| CellUtils.LocationReadsBack | src/lib/libs/cell-utils.ts:3-11 | a cell's id parses back as its row and column, and a row text written by `String` gives that row again |
| CellUtils.IdRoundTrip | src/lib/libs/cell-utils.ts:9 | the id `${row}⨯${column}` reads back as its row and column, because the decimal text of a number never holds '⨯' |
| CellUtils.IdInjective | src/lib/libs/cell-utils.ts:9 | two locations have the same id exactly when they have the same row and the same column |
| CellUtils.LocationIdOfCell | src/lib/libs/cell-utils.ts:3-11 | a cell's location is `Number` of its row attribute and its column attribute, and two cells have the same id exactly when those agree |
| CellUtils.GetCellFromLocation | src/lib/libs/cell-utils.ts:13-21 | the first cell in list order whose attributes are `String(row)` and the column, ignoring the id; undefined exactly when no cell matches |
| CellUtils.LocateRoundTrip | src/lib/libs/cell-utils.ts:3-21 | locating a listed cell and looking it up again gives the cell back, when its row text is canonical and no earlier cell carries the same attributes |
| LegacyCellUtils.GetLocationFromCell | projects/ngx-editable-material-table/src/lib/libs/cell-utils.ts:3-8 | the id-less location: `Number` of the row text and the column text; a row text written by `String` gives that row again |
| LegacyCellUtils.GetCellFromLocation | projects/ngx-editable-material-table/src/lib/libs/cell-utils.ts:10-15 | the id-less resolver returns the first matching cell, and undefined exactly when no cell matches |
| LegacyCellUtils.LocateRoundTrip | projects/ngx-editable-material-table/src/lib/libs/cell-utils.ts:3-15 | the same first-match round trip for a location made of a row and a column only |
| ChangeGenerators.PrepareChangedData | projects/ngx-editable-material-table/src/lib/libs/change-generators.ts:4-10 | the edits become `updated` unchanged and in order; `created` and `deleted` are empty |
| ChangeGenerators.PrepareDeletedData | projects/ngx-editable-material-table/src/lib/libs/change-generators.ts:12-18 | the locations become `deleted` unchanged and in order; `created` and `updated` are empty |
| ChangeGenerators.SingleKindIsConstructed | projects/ngx-editable-material-table/src/lib/libs/change-generators.ts:4-18 | a change-set with no creations and not both edits and deletions is exactly what one of the two constructors returns |
| ColumnUtils.GetDefaultColumnConfig | src/lib/libs/column-utils.ts:3-10 | a column's defaults are its key as name and editable true |
| SelectionUtils.GetElementsInRectangle | src/lib/libs/selection-utils.ts:25-57 | the cells of the list, in order, whose box strictly overlaps the rectangle spanned by the two points |
| SelectionUtils.RectangleCornersInterchangeable | src/lib/libs/selection-utils.ts:33-36 | swapping the two corners, or exchanging one coordinate between them, covers the same cells |
| SelectionUtils.RectangleOfConcat | src/lib/libs/selection-utils.ts:42-54 | covering a concatenation is covering each part, so the test is per cell |
| SelectionUtils.GetBorderCells | src/lib/libs/selection-utils.ts:59-100 | each edge list is the in-order selection of the cells with nonzero height whose top/left matches the first cell's or whose bottom/right matches the last cell's; no cells give four empty lists |
| SelectionUtils.SetClass | src/lib/libs/selection-utils.ts:159-163 | `classList.add`/`remove`: the flag is present exactly when it is set on, every other flag is untouched |
| SelectionUtils.BorderClassesIdempotent | src/lib/libs/selection-utils.ts:158-182 | setting the border flags twice equals setting them once, so a repeated cell ends the same |
| SelectionUtils.UnselectIdempotent | src/lib/libs/selection-utils.ts:110-118 | unselecting twice equals unselecting once |
| SelectionUtils.SelectCell | src/lib/libs/selection-utils.ts:103-108 | the cell becomes editable and gains the `selected` flag; its content and other flags stay |
| SelectionUtils.UnselectCell | src/lib/libs/selection-utils.ts:110-118 | nothing for undefined; otherwise the cell is not editable and loses the `selected` flag only |
| SelectionUtils.HighlightCells | src/lib/libs/selection-utils.ts:146-185 | returns its input unchanged; every input cell gains `highlighted` and carries each border flag exactly when it is in that edge list of the input |
| SelectionUtils.AddHighlightClass | src/lib/libs/selection-utils.ts:149-155 | every given cell gains `highlighted` and nothing else changes |
| SelectionUtils.SetBorderClasses | src/lib/libs/selection-utils.ts:157-182 | every given cell's four border flags are set from the edge lists, nothing else changes |
| SelectionUtils.HighlightCellsWithMouse | src/lib/libs/selection-utils.ts:120-144 | returns the rectangle's cells, highlights them, sets the anchor flag exactly on the first event's target among them, and leaves the other cells alone |
| SelectionUtils.SetAnchorClass | src/lib/libs/selection-utils.ts:135-141 | the anchor flag is set on the target and removed from every other given cell |
| SelectionUtils.UnHighlightCells | src/lib/libs/selection-utils.ts:187-194 | only the `highlighted` and anchor flags are removed; border flags, content and editability stay |
| SelectionUtils.DeleteCellContent | src/lib/libs/selection-utils.ts:196-202 | every given cell's content becomes empty and nothing else changes |
| Clipboard.StringFromCell | src/lib/libs/clipboard.ts:1-3 | a cell's clipboard text is its content with surrounding white space cut off and nothing else removed |
| Clipboard.ClipItems | src/lib/libs/clipboard.ts:19-20 | the loop reads each cell's parent and trimmed text, one item per cell, in order |
| Clipboard.Rows | src/lib/libs/clipboard.ts:12-18 | grouping by parent gives no rows exactly when there are no cells |
| Clipboard.RowsNonEmpty | src/lib/libs/clipboard.ts:12-19 | every row holds at least one cell's text |
| Clipboard.RowsGrow | src/lib/libs/clipboard.ts:12-20 | one more cell starts a new row when its parent differs from the previous cell's and extends the last row otherwise |
| Clipboard.CopyTableCellsToClipboard | src/lib/libs/clipboard.ts:5-23 | the loop builds exactly the rows of trimmed texts, tab-joined, newline-joined; no cells give the empty text |
| Clipboard.ClipboardTextInterleaves | src/lib/libs/clipboard.ts:11-23 | the text is every cell's trimmed text once, in order, with a tab between cells of one parent and a newline where the parent changes |
| Clipboard.RowCount | src/lib/libs/clipboard.ts:12-23 | there is one line more than there are parent changes |
| Clipboard.RowsKeepEveryText | src/lib/libs/clipboard.ts:11-21 | reading the rows in order gives every cell's text exactly once, in input order |
| Clipboard.ClipboardTextSplits | src/lib/libs/clipboard.ts:11-23 | when no text holds a tab or a newline, splitting on newlines and then tabs gives the texts back, grouped by parent |
| Clipboard.PastedTableToData | src/lib/libs/clipboard.ts:30-51 | one entry per table row, in order; entry i holds the text content of each cell of row i, in order |
| State.ValidatedColumns | src/lib/state.ts:47-51 | the built object has exactly the displayed columns as keys, and its key order is never longer than the displayed list |
| State.ValidatedColumnsSpec | src/lib/state.ts:47-51 | the built options have exactly the displayed columns as keys, each the defaults overlaid field by field by the override; the key order lists each of them once, ordered by where it first appears among the displayed columns, and is a subsequence of them |
| State.ValidatedEntries | src/lib/state.ts:48-51 | the built map's keys are the displayed columns and each value is the defaults overlaid by that column's override |
| State.ValidatedKeys | src/lib/state.ts:47-51 | the key order lists each built column once, as a subsequence of the displayed columns |
| State.ValidatedKeyOrder | src/lib/state.ts:47-51 | of two keys, the earlier one first appears earlier among the displayed columns |
| State.GetColumnConfig | src/lib/state.ts:73-78 | succeeds exactly for a configured column, with that column's options; otherwise fails with `Invalid column: <key>` |
| State.ColumnLookupAfterInit | src/lib/state.ts:73-78 | after `initConfig` a displayed column's options are its defaults overlaid by its override, and any other column fails with `Invalid column: <key>` |
| State.GetColumnNames | src/lib/state.ts:269-277 | no filter gives the keys in order; a filter keeps exactly the keys whose `editable` option equals it |
| State.Locations | src/lib/state.ts:263-267 | one location per highlighted cell, in order |
| State.Unmarked | src/lib/state.ts:81-82 | clearing the old selection and highlight never changes a cell's content |
| State.SelectCellSpec | src/lib/state.ts:80-91 | an editable column selects the cell, snapshots its trimmed content and makes it editable with `selected`; otherwise selection and snapshot stay and the cell is not made editable; an unknown column fails with `Invalid column`; the highlighted list is kept |
| State.ColumnCells | src/lib/state.ts:125 | the cells of `allCells` whose column is the given one, in order |
| State.UnknownUpdate | src/lib/state.ts:173-176 | the position where the update loop throws: the first update whose column is unknown, or none |
| State.LastWriteWins | src/lib/state.ts:173-182 | a cell holds the value of the last update written into it, or its old content when none is |
| State.UpdatedContentStep | src/lib/state.ts:173-182 | each further update decides a cell's content exactly when it writes into that cell |
| State.WrittenCellIsFirstAtLocation | src/lib/state.ts:178-181 | an update writes only into the first cell of the list at its row and column |
| State.Ids | src/lib/state.ts:185 | the ids of the deleted locations, one per location, in order |
| State.DeletionTargets | src/lib/state.ts:186-193 | the filter throws exactly when a listed cell has an unknown column; otherwise it keeps the cells of `allCells` whose id is listed and whose column is editable, and only those |
| State.UpdatesTouchOnlyListed | src/lib/state.ts:173-182 | a cell outside `allCells` keeps its content through the update loop |
| State.CommitVetoed | src/lib/state.ts:163-170 | a veto emits nothing and changes no cell but the selected one, which gets its snapshot back and is unselected; the snapshot is cleared |
| State.CommitApplied | src/lib/state.ts:172-202 | an accepted change-set succeeds exactly when no update and no listed cell has an unknown column; then it is emitted once, snapshot and highlight list are cleared, the selection stays, each cell holds its last written value, listed editable cells are emptied and highlighted cells lose their flags |
| State.AcceptRequest | src/lib/state.ts:146-159 | nothing is committed without a selection or when the trimmed content equals the snapshot; otherwise exactly one update from the snapshot to the trimmed content at the selected cell's location |
| State.DeletionRequestSpec | src/lib/state.ts:134-144 | the committed change-set holds only deletions: the highlighted cells' locations, in order, whose column is among the editable keys |
| State.NavigationFromUnlistedColumn | src/lib/state.ts:243-250 | from a column missing from the keys, moving right reaches the first key's cell and moving left reaches nothing |
| State.NavigationTargetSpec | src/lib/state.ts:232-257 | up and down move the row by one in the same column; left and right keep the row and move to the previous or next column key; the target is the first cell there, and there is none past either end of the keys |
| State.AppState.constructor | src/lib/state.ts:20-28 | a new session has no cells, no highlight, no selection, an empty snapshot and no configuration, and satisfies the class invariant |
| State.AppState.InitConfig | src/lib/state.ts:43-58 | the loop builds the validated options and key order, establishes the class invariant, keeps the hook, and publishes the options once |
| State.AppState.InitCellHandlers | src/lib/state.ts:69-71 | the given cells become `allCells`; nothing else changes |
| State.AppState.SelectCell | src/lib/state.ts:80-91 | the new session and every touched cell's view are those of `SelectStep` and `SelectView` |
| State.AppState.ClearMarks | src/lib/state.ts:81-82 | the selected cell is unselected and the highlighted cells unhighlighted; the fields stay |
| State.AppState.CellEditKeyPress | src/lib/state.ts:99-107 | Enter accepts, Escape rejects, any other key does nothing |
| State.AppState.HighlightCellsWithMouse | src/lib/state.ts:109-119 | the old highlight is cleared and the rectangle's cells replace the highlighted list |
| State.AppState.HighlightColumn | src/lib/state.ts:121-127 | the old highlight is cleared and exactly the column's cells, in `allCells` order, become highlighted |
| State.AppState.UnHighlightCells | src/lib/state.ts:129-132 | the highlight flags are cleared and the list is emptied |
| State.AppState.DeleteContentOfHighlightedCells | src/lib/state.ts:134-144 | nothing happens while the selected cell is editable; otherwise the deletion request is committed |
| State.AppState.AcceptSelectedElementChanges | src/lib/state.ts:146-159 | the session and cells end as `AcceptStep` and `AcceptView` say |
| State.AppState.ApplyChanges | src/lib/state.ts:161-203 | the session and cells end as `CommitStep` and `CommitView` say |
| State.AppState.FinishCommit | src/lib/state.ts:184-202 | after the update loop: the deletion filter, the emission and the reset, as `FinishStep` says |
| State.AppState.WriteUpdate | src/lib/state.ts:174-181 | one update of a known column writes its value into the first cell at its location when the column is editable, and touches no other cell |
| State.AppState.ApplyUpdates | src/lib/state.ts:173-182 | the update loop fails at the first unknown column and leaves each cell with the last value written into it by the updates before that point |
| State.AppState.RejectSelectedElementChanges | src/lib/state.ts:205-211 | the selected cell gets its snapshot back and is unselected, and the snapshot is cleared |
| State.AppState.UnselectCells | src/lib/state.ts:213-217 | the selected cell is unselected but stays the selected cell |
| State.AppState.HighlightedElementsToClipboard | src/lib/state.ts:219-224 | nothing when nothing is highlighted; otherwise exactly the clipboard text of the highlighted cells |
| State.AppState.NavigateCell | src/lib/state.ts:232-257 | nothing without a selection or without a cell at the target; otherwise the target is selected as `selectCell` would |

## Left out

- `pasteFromClipboard`: it only logs the parsed table after a timer. The parsing itself is `Clipboard.PastedTableToData`.
- `startEditingIfCellSelected` and the `setCellEditable` it calls: `setCellEditable` is not defined in `src/lib/libs/selection-utils.ts`, so its effect is unknown.
- The rxjs streams, their subscribers and the `afterChanged` tap are not modelled. Emissions are recorded in the ghost logs instead.
- The clipboard write (`navigator.clipboard.writeText`) and its console messages are not modelled. `CopyTableCellsToClipboard` returns the text it would write.
- Focus and blur, and the window selection range of `selectDivContent`, are not modelled.
- `initCellHandlers` is given the cells instead of querying the document for `td.emt-cell`.
- Layout boxes are whole pixels. `getBoundingClientRect` returns floating-point values.
- JsRuntime.ToNumber: exponents, decimal fractions, hexadecimal and `Infinity` give NaN here, which `Number` does not. Integers of any size are kept exact here, while `Number` rounds those above 2^53 to the nearest double.
- JsRuntime.NumberToString: every integer is written in plain decimal here, while `String` writes magnitudes from 10^21 up in exponent form.
- A cell's `innerHTML` is a plain string here. Parsing and serialising HTML are not modelled, so a value written into a cell reads back unchanged (`State.AppState.WriteUpdate`, `State.CommitApplied`, `State.AppState.RejectSelectedElementChanges`), while a browser may normalise markup and escape characters such as `&` and `<`.
- Object.keys order: JavaScript lists integer-like keys first in numeric order. The model keeps first-appearance order for every key.
- Column options set explicitly to `undefined` are treated as absent. `Object.assign` would copy them.
- `getColumnConfig` also accepts keys inherited through the object's prototype (such as `constructor`). The model knows only the configured columns.
- Mutation aliasing is not modelled:
  - `initConfig` writes the validated columns into the caller's `emtConfig` object.
  - `structuredClone` copies are plain values.
  - `getDefaultColumnConfig` returns a fresh object, so that freshness is not a property of the model.
- State.AppState.SelectCell, State.AppState.CellEditKeyPress, State.AppState.DeleteContentOfHighlightedCells, State.AppState.AcceptSelectedElementChanges, State.AppState.ApplyChanges, State.AppState.FinishCommit, State.AppState.RejectSelectedElementChanges, State.AppState.NavigateCell: each requires `config.Some?`, that is, that `initConfig` has run. The table component calls `initConfig` in `ngOnInit`, before any user event reaches the session. In the source, a call made earlier throws a TypeError only where it reads `this.config.columns`: in `getColumnConfig` (from `selectCell`, the update loop and the deletion filter of `applyChanges`) and in `getColumnNames` (from `deleteContentOfHighlightedCells`, and from `navigateCell` left or right). Other early calls complete: `rejectSelectedElementChanges`, `cellEditKeyPress` with Escape or another key, accepting or navigating with nothing selected, deleting while the selected cell is being edited, and the `beforeChange` lookup in `applyChanges`, which reads `this.config?.beforeChange`. The precondition excludes those calls as well.
- `navigateCell` copies the old location's `id` into the target location. The resolver never reads it, and the model passes it along unchanged.
