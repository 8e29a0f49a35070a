/** The table's editing session (`AppState`): which cells exist, which are
    highlighted, which one is being edited and what it held when editing
    began, and the validated column configuration. Each operation is a method
    of `AppState`; what it does to the session is given by a step function
    over a `Session` value and, for each cell it may touch, by a view function
    over that cell's `CellView`. The emitted change-sets are a ghost log. */
module State {
  import opened Wrappers
  import opened JsRuntime
  import opened Types
  import opened Dom
  import opened CellUtils
  import opened ColumnUtils
  import opened ChangeGenerators
  import opened Clipboard
  import opened SelectionUtils

  // ---------------------------------------------------------------------
  // Column configuration

  /** The configuration after `initConfig`: the column options as a
      JavaScript object, that is a map together with its keys in insertion
      order, and the caller's `beforeChange` hook. */
  datatype ValidatedConfig = ValidatedConfig(
    columns: ColumnsConfig,
    keys: seq<string>,
    beforeChange: Option<BeforeChange>)

  /** The keys are listed once each, and they are exactly the map's keys. */
  predicate ValidConfig(cfg: ValidatedConfig) {
    (forall i, j :: 0 <= i < j < |cfg.keys| ==> cfg.keys[i] != cfg.keys[j]) &&
    (forall c :: c in cfg.keys ==> c in cfg.columns) &&
    (forall c :: c in cfg.columns ==> c in cfg.keys)
  }

  /** `(emtConfig?.columns ?? {})[column]`. */
  function OverrideFor(overrides: Option<ColumnsConfig>, column: string): Option<ColumnConfig> {
    if overrides.Some? && column in overrides.value then Some(overrides.value[column]) else None
  }

  /** `Object.assign(base, over)` on a column's two options: each option the
      override sets replaces the base's; an absent override changes nothing. */
  function Overlay(base: ColumnConfig, over: Option<ColumnConfig>): ColumnConfig {
    match over
    case None => base
    case Some(o) =>
      ColumnConfig(
        if o.editable.Some? then o.editable else base.editable,
        if o.name.Some? then o.name else base.name)
  }

  /** The object `initConfig` builds, column by column: the default options
      overlaid by the override; a repeated column keeps its first position. */
  function ValidatedColumns(overrides: Option<ColumnsConfig>, displayed: seq<string>): (r: (ColumnsConfig, seq<string>))
    ensures forall c :: c in r.0 <==> c in displayed
    ensures |r.1| <= |displayed|
  {
    if displayed == [] then (map[], [])
    else
      assert displayed == displayed[..|displayed| - 1] + [displayed[|displayed| - 1]];
      var prev := ValidatedColumns(overrides, displayed[..|displayed| - 1]);
      var column := displayed[|displayed| - 1];
      (prev.0[column := Overlay(GetDefaultColumnConfig(column), OverrideFor(overrides, column))],
       if column in prev.0 then prev.1 else prev.1 + [column])
  }

  /** After `initConfig` the columns are exactly the displayed ones, each the
      default overlaid by its override, listed once each in order of first
      appearance. */
  lemma ValidatedColumnsSpec(overrides: Option<ColumnsConfig>, displayed: seq<string>)
    ensures var (m, keys) := ValidatedColumns(overrides, displayed);
      (forall c :: c in m <==> c in displayed) &&
      (forall c :: c in m ==> m[c] == Overlay(GetDefaultColumnConfig(c), OverrideFor(overrides, c))) &&
      ValidConfig(ValidatedConfig(m, keys, None)) &&
      (forall a, b :: 0 <= a < b < |keys| ==> FirstIndex(displayed, keys[a]) < FirstIndex(displayed, keys[b])) &&
      IsSubsequence(keys, displayed)
  {
    ValidatedEntries(overrides, displayed);
    ValidatedKeys(overrides, displayed);
    ValidatedKeyOrder(overrides, displayed);
  }

  lemma {:induction false} ValidatedEntries(overrides: Option<ColumnsConfig>, displayed: seq<string>)
    ensures var m := ValidatedColumns(overrides, displayed).0;
      (forall c :: c in m <==> c in displayed) &&
      (forall c :: c in m ==> m[c] == Overlay(GetDefaultColumnConfig(c), OverrideFor(overrides, c)))
  {
    if displayed != [] {
      var init := displayed[..|displayed| - 1];
      ValidatedEntries(overrides, init);
      assert displayed == init + [displayed[|displayed| - 1]];
    }
  }

  lemma {:induction false} ValidatedKeys(overrides: Option<ColumnsConfig>, displayed: seq<string>)
    ensures var (m, keys) := ValidatedColumns(overrides, displayed);
      (forall a, b :: 0 <= a < b < |keys| ==> keys[a] != keys[b]) &&
      (forall c :: c in keys <==> c in m) &&
      IsSubsequence(keys, displayed)
  {
    if displayed != [] {
      var init := displayed[..|displayed| - 1];
      var column := displayed[|displayed| - 1];
      ValidatedKeys(overrides, init);
      var (m, keys) := ValidatedColumns(overrides, init);
      assert displayed == init + [column];
      if column !in m {
        SubsequenceSnoc(keys, init, column);
      } else {
        SubsequenceExtend(keys, init, column);
      }
    }
  }

  /** The keys are listed in the order in which the columns first appear. */
  lemma {:induction false} ValidatedKeyOrder(overrides: Option<ColumnsConfig>, displayed: seq<string>)
    ensures var keys := ValidatedColumns(overrides, displayed).1;
      forall a, b :: 0 <= a < b < |keys| ==> FirstIndex(displayed, keys[a]) < FirstIndex(displayed, keys[b])
  {
    if displayed != [] {
      var init := displayed[..|displayed| - 1];
      var column := displayed[|displayed| - 1];
      ValidatedKeyOrder(overrides, init);
      ValidatedKeys(overrides, init);
      ValidatedEntries(overrides, init);
      var (m, keys) := ValidatedColumns(overrides, init);
      assert displayed == init + [column];
      var keys' := ValidatedColumns(overrides, displayed).1;
      assert keys' == if column in m then keys else keys + [column];
      forall a | 0 <= a < |keys|
        ensures FirstIndex(displayed, keys[a]) == FirstIndex(init, keys[a]) < |init|
      {
        assert keys[a] in init;
        FirstIndexSnoc(init, column, keys[a]);
      }
      if column !in m {
        assert column !in init;
        FirstIndexSnoc(init, column, column);
        forall a, b | 0 <= a < b < |keys'|
          ensures FirstIndex(displayed, keys'[a]) < FirstIndex(displayed, keys'[b])
        {
          if b == |keys| {
            assert keys'[a] == keys[a] && keys'[b] == column;
          } else {
            assert keys'[a] == keys[a] && keys'[b] == keys[b];
          }
        }
      }
    }
  }

  /** The position where `x` first appears in `s`, or -1. */
  function FirstIndex(s: seq<string>, x: string): int {
    if s == [] then -1
    else if s[0] == x then 0
    else
      var k := FirstIndex(s[1..], x);
      if k < 0 then -1 else k + 1
  }

  /** Appending an element does not move where an earlier one first appears;
      a new one first appears at the end. */
  lemma {:induction false} FirstIndexSnoc(s: seq<string>, x: string, y: string)
    ensures y in s ==> 0 <= FirstIndex(s + [x], y) == FirstIndex(s, y) < |s|
    ensures y !in s && y == x ==> FirstIndex(s + [x], y) == |s|
  {
    if s != [] {
      assert (s + [x])[1..] == s[1..] + [x];
      FirstIndexSnoc(s[1..], x, y);
    }
  }

  lemma {:induction false} SubsequenceSnoc<T>(r: seq<T>, s: seq<T>, x: T)
    requires IsSubsequence(r, s)
    ensures IsSubsequence(r + [x], s + [x])
  {
    if s == [] {
      assert r == [];
      assert IsSubsequence([x][1..], [x][1..]);
    } else if r != [] && r[0] == s[0] && IsSubsequence(r[1..], s[1..]) {
      SubsequenceSnoc(r[1..], s[1..], x);
      assert (r + [x])[1..] == r[1..] + [x] && (s + [x])[1..] == s[1..] + [x];
    } else {
      SubsequenceSnoc(r, s[1..], x);
      assert (s + [x])[1..] == s[1..] + [x];
    }
  }

  lemma {:induction false} SubsequenceExtend<T>(r: seq<T>, s: seq<T>, x: T)
    requires IsSubsequence(r, s)
    ensures IsSubsequence(r, s + [x])
  {
    if s == [] {
      assert r == [];
    } else if r != [] && r[0] == s[0] && IsSubsequence(r[1..], s[1..]) {
      SubsequenceExtend(r[1..], s[1..], x);
      assert (s + [x])[1..] == s[1..] + [x];
    } else {
      SubsequenceExtend(r, s[1..], x);
      assert (s + [x])[1..] == s[1..] + [x];
    }
  }

  function InvalidColumn(column: string): string {
    "Invalid column: " + column
  }

  /** `getColumnConfig`. */
  function GetColumnConfig(cfg: ValidatedConfig, column: string): (r: Result<ColumnConfig, string>)
    ensures r.Success? <==> column in cfg.columns
    ensures r.Success? ==> r.value == cfg.columns[column]
    ensures r.Failure? ==> r.error == "Invalid column: " + column
  {
    if column in cfg.columns then Success(cfg.columns[column]) else Failure(InvalidColumn(column))
  }

  /** After `initConfig`, a displayed column's options are its defaults
      overlaid by its override, and any other column is rejected as invalid. */
  lemma ColumnLookupAfterInit(emtConfig: EmtConfig, displayed: seq<string>, column: string)
    ensures var (m, keys) := ValidatedColumns(emtConfig.columns, displayed);
      var r := GetColumnConfig(ValidatedConfig(m, keys, emtConfig.beforeChange), column);
      (column in displayed ==> r == Success(Overlay(GetDefaultColumnConfig(column), OverrideFor(emtConfig.columns, column)))) &&
      (column !in displayed ==> r == Failure("Invalid column: " + column))
  {
    ValidatedColumnsSpec(emtConfig.columns, displayed);
  }

  /** A column whose `editable` option is `true`. */
  predicate Editable(cc: ColumnConfig) {
    cc.editable == Some(true)
  }

  /** `getColumnNames(filterByEditable)`: the column keys in order, restricted
      to those whose `editable` option is exactly the filter when one is given. */
  function GetColumnNames(cfg: ValidatedConfig, filterByEditable: Option<bool>): (names: seq<string>)
    ensures filterByEditable.None? ==> names == cfg.keys
    ensures filterByEditable.Some? ==>
      forall i :: 0 <= i < |names| ==>
        (names[i] in cfg.keys && names[i] in cfg.columns && cfg.columns[names[i]].editable == filterByEditable)
    ensures filterByEditable.Some? ==>
      forall i ::
        (0 <= i < |cfg.keys| && cfg.keys[i] in cfg.columns && cfg.columns[cfg.keys[i]].editable == filterByEditable)
        ==> cfg.keys[i] in names
  {
    if filterByEditable.None? then cfg.keys
    else Filter(cfg.keys, (cn: string) => cn in cfg.columns && cfg.columns[cn].editable == filterByEditable)
  }

  // ---------------------------------------------------------------------
  // The session

  /** The fields of `AppState` the operations read and write, plus the log
      of emitted change-sets. */
  datatype Session = Session(
    allCells: seq<Cell>,
    highlighted: seq<Cell>,
    selected: Cell?,
    original: string,
    config: ValidatedConfig,
    log: seq<EmtDataChange>)

  /** `getHighlightedElementLocations`, and in general the locations of a
      list of cells, in order. */
  function Locations(cells: seq<Cell>): (locs: seq<CellLocation>)
    ensures |locs| == |cells|
    ensures forall i :: 0 <= i < |cells| ==> locs[i] == GetLocationFromCell(cells[i])
  {
    seq(|cells|, i requires 0 <= i < |cells| => GetLocationFromCell(cells[i]))
  }

  // --- selectCell

  /** Whether `selectCell(el)` puts `el` into edit mode. */
  predicate SelectsCell(cfg: ValidatedConfig, el: Cell) {
    el.x in cfg.columns && Editable(cfg.columns[el.x])
  }

  /** `selectCell(el)` on the session, `content` being the cell's content:
      an unknown column throws; an editable one makes `el` the selected cell
      and its trimmed content the snapshot; otherwise the selection stays. The
      highlighted list is kept (only its flags are cleared). */
  function SelectStep(s: Session, el: Cell, content: string): (Session, Outcome) {
    if el.x !in s.config.columns then (s, Fail(InvalidColumn(el.x)))
    else if SelectsCell(s.config, el) then (s.(selected := el, original := Trim(content)), Pass)
    else (s, Pass)
  }

  /** A cell's view after `selectCell(el)`: the old selection unselected, the
      highlighted cells unhighlighted, then `el` selected if its column is
      editable. */
  function SelectView(s: Session, el: Cell, c: Cell, v: CellView): CellView {
    var v2 := Unmarked(s.selected, s.highlighted, c, v);
    if c == el && SelectsCell(s.config, el) then SelectedView(v2) else v2
  }

  /** The old selection unselected and the highlighted cells unhighlighted. */
  function Unmarked(selected: Cell?, highlighted: seq<Cell>, c: Cell, v: CellView): (w: CellView)
    ensures w.content == v.content
  {
    var v1 := if c == selected then UnselectedView(v) else v;
    if c in highlighted then UnhighlightedView(v1) else v1
  }

  /** In an editable column `selectCell` selects the cell, snapshots its
      trimmed content and makes it editable and flagged; in a non-editable one
      the selection and the snapshot stay and the cell is not made editable;
      in an unknown one it throws `Invalid column`. */
  lemma SelectCellSpec(s: Session, el: Cell, content: string, v: CellView)
    ensures var (s', outcome) := SelectStep(s, el, content);
      var w := SelectView(s, el, el, v);
      (outcome.Fail? <==> el.x !in s.config.columns) &&
      (outcome.Fail? ==> outcome == Fail("Invalid column: " + el.x)) &&
      (SelectsCell(s.config, el) ==>
        s' == s.(selected := el, original := Trim(content)) &&
        w.contentEditable == "true" && SELECTED_CLASS in w.classes) &&
      (!SelectsCell(s.config, el) ==>
        s' == s &&
        w.contentEditable == (if el == s.selected then "false" else v.contentEditable)) &&
      s'.highlighted == s.highlighted
  {
  }

  // --- unHighlightCells, highlightColumn, highlightCellsWithMouse

  /** The cells of a column, in list order. */
  function ColumnCells(cells: seq<Cell>, column: string): (r: seq<Cell>)
    ensures SelectedFrom(r, cells, (c: Cell) => GetLocationFromCell(c).column == column)
  {
    FilterSelects(cells, (c: Cell) => GetLocationFromCell(c).column == column);
    Filter(cells, (c: Cell) => GetLocationFromCell(c).column == column)
  }

  // --- rejectSelectedElementChanges

  /** `rejectSelectedElementChanges`: with a selected cell the snapshot is
      cleared; nothing else in the session changes. */
  function RejectStep(s: Session): Session {
    if s.selected != null then s.(original := "") else s
  }

  /** The selected cell gets its snapshot back as content and is unselected. */
  function RejectView(s: Session, c: Cell, v: CellView): CellView {
    if c == s.selected then UnselectedView(v.(content := s.original)) else v
  }

  // --- applyChanges

  /** The change-set `applyChanges` goes on with: the hook's answer on a copy
      of the raw change-set, or the raw change-set when there is no hook;
      `None` is a veto. */
  function Intercept(cfg: ValidatedConfig, raw: EmtDataChange): Option<EmtDataChange> {
    if cfg.beforeChange.Some? then cfg.beforeChange.value(raw) else Some(raw)
  }

  /** The position of the first update whose column is unknown (the update
      loop throws there), or -1. */
  function UnknownUpdate(cfg: ValidatedConfig, updates: seq<CellDataChange>): (k: int)
    ensures -1 <= k < |updates|
    ensures forall j :: 0 <= j < |updates| && (k < 0 || j < k) ==> updates[j].location.column in cfg.columns
    ensures k >= 0 ==> updates[k].location.column !in cfg.columns
  {
    FindIndex(updates, (u: CellDataChange) => u.location.column !in cfg.columns)
  }

  /** The updates the loop gets through: all of them, or those before the
      first unknown column. */
  function AppliedUpdates(cfg: ValidatedConfig, updates: seq<CellDataChange>): seq<CellDataChange> {
    var k := UnknownUpdate(cfg, updates);
    if k < 0 then updates else updates[..k]
  }

  /** Whether update `u` writes into cell `c`: its column is editable and `c`
      is the first cell at its location. */
  predicate Writes(cfg: ValidatedConfig, cells: seq<Cell>, u: CellDataChange, c: Cell) {
    u.location.column in cfg.columns && Editable(cfg.columns[u.location.column]) &&
    GetCellFromLocation(u.location, cells) == Some(c)
  }

  /** A value after a run of updates, starting from `content`: each update
      that `writes` accepts replaces it with the update's value. */
  function LastWrite(updates: seq<CellDataChange>, writes: CellDataChange -> bool, content: string): string {
    if updates == [] then content
    else
      var u := updates[|updates| - 1];
      if writes(u) then u.value else LastWrite(updates[..|updates| - 1], writes, content)
  }

  /** The last accepted update, at position `j`, decides the value; when
      none is accepted (`j == -1`) the value is the starting one. */
  lemma {:induction false} LastWriteWins(updates: seq<CellDataChange>, writes: CellDataChange -> bool, content: string, j: int)
    requires -1 <= j < |updates|
    requires j >= 0 ==> writes(updates[j])
    requires forall k :: j < k < |updates| ==> !writes(updates[k])
    ensures LastWrite(updates, writes, content) == if j < 0 then content else updates[j].value
  {
    if updates != [] && j != |updates| - 1 {
      var init := updates[..|updates| - 1];
      assert forall k :: j < k < |init| ==> init[k] == updates[k];
      LastWriteWins(init, writes, content, j);
    }
  }

  /** The content of `c` after the updates run in order over `cells`,
      starting from `content`: the value of the last update written into
      `c` (see `LastWriteWins`). */
  function UpdatedContent(cfg: ValidatedConfig, updates: seq<CellDataChange>, cells: seq<Cell>, c: Cell, content: string): string {
    LastWrite(updates, (u: CellDataChange) => Writes(cfg, cells, u, c), content)
  }

  /** One more update: it decides the content when it writes into the cell. */
  lemma UpdatedContentStep(cfg: ValidatedConfig, updates: seq<CellDataChange>, i: nat, cells: seq<Cell>, c: Cell, content: string)
    requires i < |updates|
    ensures UpdatedContent(cfg, updates[..i + 1], cells, c, content) ==
      if Writes(cfg, cells, updates[i], c) then updates[i].value
      else UpdatedContent(cfg, updates[..i], cells, c, content)
  {
    assert updates[..i + 1][..i] == updates[..i];
  }

  /** An update writes only into a cell of the list at its location, the
      first such cell. */
  lemma WrittenCellIsFirstAtLocation(cfg: ValidatedConfig, cells: seq<Cell>, u: CellDataChange, c: Cell)
    requires Writes(cfg, cells, u, c)
    ensures exists i ::
      (0 <= i < |cells| && cells[i] == c && AtLocation(c, u.location.row, u.location.column) &&
       forall j :: 0 <= j < i ==> !AtLocation(cells[j], u.location.row, u.location.column))
  {
  }

  /** `changes.deleted.map(l => l.id)`. */
  function Ids(locs: seq<CellLocation>): (ids: seq<string>)
    ensures |ids| == |locs|
    ensures forall i :: 0 <= i < |locs| ==> ids[i] == locs[i].id
  {
    seq(|locs|, i requires 0 <= i < |locs| => locs[i].id)
  }

  /** Whether a cell's id is among the listed ones. */
  predicate Listed(ids: seq<string>, c: Cell) {
    GetLocationFromCell(c).id in ids
  }

  /** Whether the deletion filter keeps a cell: its id is listed and its
      column is editable. */
  predicate ToDelete(cfg: ValidatedConfig, ids: seq<string>, c: Cell) {
    Listed(ids, c) && c.x in cfg.columns && Editable(cfg.columns[c.x])
  }

  /** The deletion filter over `cells`: the filter's test throws on the
      first listed cell whose column is unknown; otherwise it keeps, in order,
      exactly the cells `ToDelete` accepts. */
  function DeletionTargets(cfg: ValidatedConfig, cells: seq<Cell>, ids: seq<string>): (r: Result<seq<Cell>, string>)
    ensures r.Success? <==> forall i :: 0 <= i < |cells| && Listed(ids, cells[i]) ==> cells[i].x in cfg.columns
    ensures r.Success? ==> forall i :: 0 <= i < |r.value| ==> r.value[i] in cells && ToDelete(cfg, ids, r.value[i])
    ensures r.Success? ==> forall i :: 0 <= i < |cells| && ToDelete(cfg, ids, cells[i]) ==> cells[i] in r.value
    ensures r.Failure? ==>
      exists i :: (0 <= i < |cells| && Listed(ids, cells[i]) &&
                   cells[i].x !in cfg.columns && r.error == InvalidColumn(cells[i].x))
  {
    var k := FindIndex(cells, (c: Cell) => Listed(ids, c) && c.x !in cfg.columns);
    if k >= 0 then Failure(InvalidColumn(cells[k].x))
    else Success(Filter(cells, (c: Cell) => ToDelete(cfg, ids, c)))
  }

  /** `applyChanges(raw)` on the session. A veto rejects the edit. Otherwise
      an unknown column among the updates or among the listed cells throws
      (the updates before it stay applied, nothing is emitted); on success
      the change-set is emitted once, the snapshot is cleared and nothing is
      highlighted any more. */
  function CommitStep(s: Session, raw: EmtDataChange): (Session, Outcome) {
    match Intercept(s.config, raw)
    case None => (RejectStep(s), Pass)
    case Some(changes) =>
      var k := UnknownUpdate(s.config, changes.updated);
      if k >= 0 then (s, Fail(InvalidColumn(changes.updated[k].location.column)))
      else FinishStep(s, changes)
  }

  /** The cells the deletion step empties, or the error its filter throws. */
  function DeletionPhase(s: Session, changes: EmtDataChange): Result<seq<Cell>, string> {
    if changes.deleted == [] then Success([])
    else DeletionTargets(s.config, s.allCells, Ids(changes.deleted))
  }

  /** What follows the update loop of `applyChanges`: the deletion step, then
      the emission and the reset. */
  function FinishStep(s: Session, changes: EmtDataChange): (Session, Outcome) {
    var targets := DeletionPhase(s, changes);
    if targets.Failure? then (s, Fail(targets.error))
    else (s.(log := s.log + [changes], original := "", highlighted := []), Pass)
  }

  /** A cell's view after `applyChanges(raw)`: see `CommitStep`. */
  function CommitView(s: Session, raw: EmtDataChange, c: Cell, v: CellView): CellView {
    match Intercept(s.config, raw)
    case None => RejectView(s, c, v)
    case Some(changes) =>
      var v1 := v.(content := UpdatedContent(s.config, AppliedUpdates(s.config, changes.updated), s.allCells, c, v.content));
      if UnknownUpdate(s.config, changes.updated) >= 0 then v1
      else FinishView(s, changes, c, v1)
  }

  function FinishView(s: Session, changes: EmtDataChange, c: Cell, v: CellView): CellView {
    var targets := DeletionPhase(s, changes);
    if targets.Failure? then v
    else
      var v2 := if c in targets.value then ClearedView(v) else v;
      if c in s.highlighted then UnhighlightedView(v2) else v2
  }

  /** A cell outside the list keeps its content through the update loop. */
  lemma UpdatesTouchOnlyListed(cfg: ValidatedConfig, updates: seq<CellDataChange>, cells: seq<Cell>, c: Cell, content: string)
    requires c !in cells
    ensures UpdatedContent(cfg, updates, cells, c, content) == content
  {
    forall k | 0 <= k < |updates| ensures !Writes(cfg, cells, updates[k], c) {
      if Writes(cfg, cells, updates[k], c) {
        WrittenCellIsFirstAtLocation(cfg, cells, updates[k], c);
      }
    }
    LastWriteWins(updates, (u: CellDataChange) => Writes(cfg, cells, u, c), content, -1);
  }

  /** A veto emits nothing and changes no cell but the selected one, which
      gets its snapshot back and is unselected; the snapshot is cleared. */
  lemma CommitVetoed(s: Session, raw: EmtDataChange, c: Cell, v: CellView)
    requires s.config.beforeChange.Some? && s.config.beforeChange.value(raw).None?
    ensures var (s', outcome) := CommitStep(s, raw);
      outcome == Pass && s'.log == s.log && s'.highlighted == s.highlighted && s'.selected == s.selected &&
      (s.selected != null ==> s'.original == "") &&
      CommitView(s, raw, c, v) == (if c == s.selected then UnselectedView(v.(content := s.original)) else v)
  {
  }

  /** A commit that goes through emits exactly the (possibly rewritten)
      change-set, once; clears the snapshot and the highlighted list; leaves
      the selection; and leaves each cell with the content of the last update
      written into it, emptied if it is an editable cell listed for deletion,
      and unhighlighted if it was highlighted. */
  lemma CommitApplied(s: Session, raw: EmtDataChange, c: Cell, v: CellView)
    requires Intercept(s.config, raw).Some?
    ensures var changes := Intercept(s.config, raw).value;
      var (s', outcome) := CommitStep(s, raw);
      outcome == Pass <==>
        (forall j :: 0 <= j < |changes.updated| ==> changes.updated[j].location.column in s.config.columns) &&
        (changes.deleted != [] ==>
           forall i ::
             (0 <= i < |s.allCells| && Listed(Ids(changes.deleted), s.allCells[i]))
             ==> s.allCells[i].x in s.config.columns)
    ensures var changes := Intercept(s.config, raw).value;
      var (s', outcome) := CommitStep(s, raw);
      var w := CommitView(s, raw, c, v);
      outcome == Pass ==>
        s'.log == s.log + [changes] && s'.original == "" && s'.highlighted == [] && s'.selected == s.selected &&
        (ToDelete(s.config, Ids(changes.deleted), c) && c in s.allCells ==> w.content == "") &&
        (!ToDelete(s.config, Ids(changes.deleted), c) ==>
          w.content == UpdatedContent(s.config, changes.updated, s.allCells, c, v.content)) &&
        w.contentEditable == v.contentEditable &&
        w.classes == (if c in s.highlighted then v.classes - {HIGHLIGHT_CLASS, INITIAL_SELECTION_CELL_CLASS} else v.classes)
  {
    var changes := Intercept(s.config, raw).value;
    var k := UnknownUpdate(s.config, changes.updated);
    if changes.deleted == [] {
      assert forall i :: 0 <= i < |s.allCells| ==> !Listed(Ids(changes.deleted), s.allCells[i]);
    }
  }

  // --- acceptSelectedElementChanges

  /** The change-set `acceptSelectedElementChanges` commits, `content` being
      the selected cell's content: none without a selection or when the
      trimmed content equals the snapshot; otherwise one update from the
      snapshot to the trimmed content at the selected cell's location. */
  function AcceptRequest(s: Session, content: string): (r: Option<EmtDataChange>)
    ensures r.None? <==> s.selected == null || Trim(content) == s.original
    ensures r.Some? ==>
      (r.value.created == [] && r.value.deleted == [] &&
       r.value.updated == [CellDataChange(GetLocationFromCell(s.selected), s.original, Trim(content))])
  {
    if s.selected == null || Trim(content) == s.original then None
    else Some(PrepareChangedData([CellDataChange(GetLocationFromCell(s.selected), s.original, Trim(content))]))
  }

  function AcceptStep(s: Session, content: string): (Session, Outcome) {
    match AcceptRequest(s, content)
    case None => (s, Pass)
    case Some(raw) => CommitStep(s, raw)
  }

  function AcceptView(s: Session, content: string, c: Cell, v: CellView): CellView {
    match AcceptRequest(s, content)
    case None => v
    case Some(raw) => CommitView(s, raw, c, v)
  }

  // --- deleteContentOfHighlightedCells

  /** The change-set `deleteContentOfHighlightedCells` commits: the locations
      of the highlighted cells in editable columns, in order. */
  function DeletionRequest(s: Session): EmtDataChange {
    var editable := GetColumnNames(s.config, Some(true));
    PrepareDeletedData(Filter(Locations(s.highlighted), (l: CellLocation) => l.column in editable))
  }

  /** Only deletions: exactly the highlighted cells' locations whose column
      is among the editable column keys, in highlighted order. */
  lemma DeletionRequestSpec(s: Session)
    ensures var r := DeletionRequest(s);
      var editable := GetColumnNames(s.config, Some(true));
      r.created == [] && r.updated == [] &&
      SelectedFrom(r.deleted, Locations(s.highlighted), (l: CellLocation) => l.column in editable) &&
      forall column :: column in editable <==>
        (column in s.config.keys && column in s.config.columns && Editable(s.config.columns[column]))
  {
    var editable := GetColumnNames(s.config, Some(true));
    forall column | column in s.config.keys && column in s.config.columns && Editable(s.config.columns[column])
      ensures column in editable
    {
      var i :| 0 <= i < |s.config.keys| && s.config.keys[i] == column;
    }
    forall column | column in editable
      ensures column in s.config.keys && column in s.config.columns && Editable(s.config.columns[column])
    {
      var i :| 0 <= i < |editable| && editable[i] == column;
    }
    FilterSelects(Locations(s.highlighted), (l: CellLocation) => l.column in editable);
  }

  /** While the selected cell is being edited nothing happens; otherwise the
      deletion request is committed. */
  function DeleteStep(s: Session, editing: bool): (Session, Outcome) {
    if editing then (s, Pass) else CommitStep(s, DeletionRequest(s))
  }

  function DeleteView(s: Session, editing: bool, c: Cell, v: CellView): CellView {
    if editing then v else CommitView(s, DeletionRequest(s), c, v)
  }

  // --- navigateCell

  datatype Direction = Up | Down | Left | Right

  /** The key before (`left`) or after the given one in `names`, or
      `undefined` past either end. A key that is not listed has index -1, so
      going right from it gives the first key. */
  function AdjacentColumn(names: seq<string>, column: string, left: bool): Option<string> {
    var idx := FindIndex(names, (n: string) => n == column);
    var j := if left then idx - 1 else idx + 1;
    if 0 <= j < |names| then Some(names[j]) else None
  }

  /** The cell `navigateCell(direction)` moves to: none without a selection;
      otherwise the first cell at the selected cell's location moved by one
      row, or to the adjacent column key. */
  function NavigationTarget(s: Session, d: Direction): Option<Cell> {
    if s.selected == null then None
    else
      var loc := GetLocationFromCell(s.selected);
      var row := match d
        case Up => Plus(loc.row, -1)
        case Down => Plus(loc.row, 1)
        case _ => loc.row;
      var column := match d
        case Left => AdjacentColumn(GetColumnNames(s.config, None), loc.column, true)
        case Right => AdjacentColumn(GetColumnNames(s.config, None), loc.column, false)
        case _ => Some(loc.column);
      if column.None? then None
      else GetCellFromLocation(CellLocation(row, column.value, loc.id), s.allCells)
  }

  /** Up and down keep the column and move the row by one; left and right
      keep the row and move to the previous or next column key; the target
      is the first cell at that place, and there is none off the grid. */
  lemma NavigationTargetSpec(s: Session, d: Direction, i: nat)
    requires s.selected != null && ValidConfig(s.config)
    requires i < |s.config.keys| && s.config.keys[i] == s.selected.x
    ensures var loc := GetLocationFromCell(s.selected);
      var target := NavigationTarget(s, d);
      var row := if d == Up then Plus(loc.row, -1) else if d == Down then Plus(loc.row, 1) else loc.row;
      var j := if d == Left then i - 1 else if d == Right then i + 1 else i;
      (0 <= j < |s.config.keys| ==>
        target == GetCellFromLocation(CellLocation(row, s.config.keys[j], loc.id), s.allCells)) &&
      (!(0 <= j < |s.config.keys|) ==> target.None?)
  {
    var keys := s.config.keys;
    var loc := GetLocationFromCell(s.selected);
    KeyIndex(keys, i);
    assert GetColumnNames(s.config, None) == keys;
    match d
    case Up =>
    case Down =>
    case Left =>
      assert AdjacentColumn(keys, loc.column, true) == if i > 0 then Some(keys[i - 1]) else None;
    case Right =>
      assert AdjacentColumn(keys, loc.column, false) == if i + 1 < |keys| then Some(keys[i + 1]) else None;
  }

  /** A selected cell whose column is not among the keys has index -1 there:
      moving right lands on the first key, moving left finds nothing. */
  lemma NavigationFromUnlistedColumn(s: Session, d: Direction)
    requires s.selected != null && s.selected.x !in s.config.keys
    ensures var loc := GetLocationFromCell(s.selected);
      (d == Left ==> NavigationTarget(s, d).None?) &&
      (d == Right && s.config.keys != [] ==>
        NavigationTarget(s, d) == GetCellFromLocation(CellLocation(loc.row, s.config.keys[0], loc.id), s.allCells))
  {
    var keys := s.config.keys;
    var loc := GetLocationFromCell(s.selected);
    assert GetColumnNames(s.config, None) == keys;
    assert FindIndex(keys, (n: string) => n == loc.column) == -1;
  }

  /** Among distinct keys, the one at `i` is found at `i`. */
  lemma KeyIndex(keys: seq<string>, i: nat)
    requires forall a, b :: 0 <= a < b < |keys| ==> keys[a] != keys[b]
    requires i < |keys|
    ensures FindIndex(keys, (n: string) => n == keys[i]) == i
  {
  }

  function NavigateStep(s: Session, d: Direction, targetContent: string): (Session, Outcome) {
    match NavigationTarget(s, d)
    case None => (s, Pass)
    case Some(el) => SelectStep(s, el, targetContent)
  }

  function NavigateView(s: Session, d: Direction, c: Cell, v: CellView): CellView {
    match NavigationTarget(s, d)
    case None => v
    case Some(el) => SelectView(s, el, c, v)
  }

  // --- cellEditKeyPress

  /** Enter accepts the edit, Escape rejects it, any other key does nothing. */
  function KeyPressStep(s: Session, key: string, content: string): (Session, Outcome) {
    if key == "Enter" then AcceptStep(s, content)
    else if key == "Escape" then (RejectStep(s), Pass)
    else (s, Pass)
  }

  function KeyPressView(s: Session, key: string, content: string, c: Cell, v: CellView): CellView {
    if key == "Enter" then AcceptView(s, content, c, v)
    else if key == "Escape" then RejectView(s, c, v)
    else v
  }

  // ---------------------------------------------------------------------
  // The class

  class AppState {
    var allCells: seq<Cell>
    var highlightedCells: seq<Cell>
    var selectedCell: Cell?
    var selectedCellOriginalData: string
    /** `None` until `initConfig` runs. */
    var config: Option<ValidatedConfig>
    /** Every change-set emitted on the data-change stream, in order. */
    ghost var emitted: seq<EmtDataChange>
    /** Every column configuration published on the validated-config stream. */
    ghost var published: seq<ColumnsConfig>

    constructor ()
      ensures allCells == [] && highlightedCells == [] && selectedCell == null
      ensures selectedCellOriginalData == "" && config.None? && emitted == [] && published == []
      ensures Valid()
    {
      allCells := [];
      highlightedCells := [];
      selectedCell := null;
      selectedCellOriginalData := "";
      config := None;
      emitted := [];
      published := [];
    }

    /** The class invariant: once `initConfig` has run, the column options and
        their key order agree. The methods that read or replace the
        configuration keep it; the others leave `config` as it was. */
    predicate Valid()
      reads this
    {
      config.Some? ==> ValidConfig(config.value)
    }

    ghost function Snapshot(): Session
      requires config.Some?
      reads this
    {
      Session(allCells, highlightedCells, selectedCell, selectedCellOriginalData, config.value, emitted)
    }

    ghost function SelectedContent(): string
      reads this, selectedCell
    {
      if selectedCell == null then "" else selectedCell.content
    }

    /** `initConfig`: builds the column options from the displayed columns and
        the overrides, keeps the hook, and publishes the options. */
    method InitConfig(emtConfig: EmtConfig, displayedColumns: seq<string>)
      modifies this
      ensures Valid()
      ensures var (m, keys) := ValidatedColumns(emtConfig.columns, displayedColumns);
        config == Some(ValidatedConfig(m, keys, emtConfig.beforeChange)) && published == old(published) + [m]
      ensures allCells == old(allCells) && highlightedCells == old(highlightedCells)
      ensures selectedCell == old(selectedCell) && selectedCellOriginalData == old(selectedCellOriginalData)
      ensures emitted == old(emitted)
    {
      var columns: ColumnsConfig := map[];
      var keys: seq<string> := [];
      for i := 0 to |displayedColumns|
        invariant (columns, keys) == ValidatedColumns(emtConfig.columns, displayedColumns[..i])
      {
        var column := displayedColumns[i];
        assert displayedColumns[..i + 1][..i] == displayedColumns[..i];
        var defaults := GetDefaultColumnConfig(column);
        // the key order of the object being built
        if column !in columns {
          keys := keys + [column];
        }
        columns := columns[column := Overlay(defaults, OverrideFor(emtConfig.columns, column))];
      }
      assert displayedColumns[..|displayedColumns|] == displayedColumns;
      ValidatedKeys(emtConfig.columns, displayedColumns);
      config := Some(ValidatedConfig(columns, keys, emtConfig.beforeChange));
      published := published + [columns];
    }

    /** `initCellHandlers`: the table's cells, in document order. */
    method InitCellHandlers(cells: seq<Cell>)
      modifies this
      ensures allCells == cells
      ensures highlightedCells == old(highlightedCells) && selectedCell == old(selectedCell)
      ensures selectedCellOriginalData == old(selectedCellOriginalData) && config == old(config)
      ensures emitted == old(emitted) && published == old(published)
    {
      allCells := cells;
    }

    /** `selectCell(el)`. Every cell other than `el`, the selected one and
        the highlighted ones is left alone. */
    method SelectCell(el: Cell) returns (outcome: Outcome)
      requires Valid()
      requires config.Some?
      modifies this, el, selectedCell, highlightedCells
      ensures Valid()
      ensures config.Some? && (Snapshot(), outcome) == SelectStep(old(Snapshot()), el, old(el.content))
      ensures forall c :: c == el || c in old(highlightedCells) || c == old(selectedCell) ==>
        View(c) == SelectView(old(Snapshot()), el, c, old(View(c)))
      ensures published == old(published)
    {
      ClearMarks();
      assert View(el).content == old(el.content);
      var location := GetLocationFromCell(el);
      var cc := GetColumnConfig(config.value, location.column);
      if cc.Failure? {
        outcome := Fail(cc.error);
      } else {
        if Editable(cc.value) {
          selectedCell := el;
          selectedCellOriginalData := Trim(el.content);
          SelectionUtils.SelectCell(el);
        }
        outcome := Pass;
      }
    }

    /** The first two calls of `selectCell`: the selected cell unselected and
        the highlighted cells unhighlighted, the fields left as they are. */
    method ClearMarks()
      modifies selectedCell, highlightedCells
      ensures forall c :: c in highlightedCells || c == selectedCell ==>
        View(c) == Unmarked(selectedCell, highlightedCells, c, old(View(c)))
    {
      SelectionUtils.UnselectCell(selectedCell);
      SelectionUtils.UnHighlightCells(highlightedCells);
    }

    /** `cellEditKeyPress(event)`, by the event's key. */
    method CellEditKeyPress(key: string) returns (outcome: Outcome)
      requires Valid()
      requires config.Some?
      modifies this, allCells, highlightedCells, selectedCell
      ensures Valid()
      ensures config.Some?
      ensures (Snapshot(), outcome) == KeyPressStep(old(Snapshot()), key, old(SelectedContent()))
      ensures forall c :: c in old(allCells) || c in old(highlightedCells) || c == old(selectedCell) ==> View(c) == KeyPressView(old(Snapshot()), key, old(SelectedContent()), c, old(View(c)))
      ensures published == old(published)
    {
      if key == "Enter" {
        outcome := AcceptSelectedElementChanges();
      } else if key == "Escape" {
        RejectSelectedElementChanges();
        outcome := Pass;
      } else {
        outcome := Pass;
      }
    }

    /** `highlightCellsWithMouse`: the rectangle's cells replace the
        highlighted ones. */
    method HighlightCellsWithMouse(initial: MouseEvent, current: MouseEvent)
      modifies this, allCells, highlightedCells
      ensures highlightedCells == GetElementsInRectangle(old(allCells), initial.x, initial.y, current.x, current.y)
      ensures allCells == old(allCells) && selectedCell == old(selectedCell) && config == old(config)
      ensures selectedCellOriginalData == old(selectedCellOriginalData)
      ensures emitted == old(emitted) && published == old(published)
      ensures forall c :: c in old(allCells) || c in old(highlightedCells) ==>
        View(c) == (var v1 := if c in old(highlightedCells) then UnhighlightedView(old(View(c))) else old(View(c));
                    if c in highlightedCells
                    then AnchoredView(HighlightedView(v1, GetBorderCells(highlightedCells), c), c == initial.target)
                    else v1)
    {
      UnHighlightCells();
      highlightedCells := SelectionUtils.HighlightCellsWithMouse(initial, current, allCells);
    }

    /** `highlightColumn(column)`: the column's cells replace the highlighted
        ones. */
    method HighlightColumn(column: string)
      modifies this, allCells, highlightedCells
      ensures highlightedCells == ColumnCells(old(allCells), column)
      ensures allCells == old(allCells) && selectedCell == old(selectedCell) && config == old(config)
      ensures selectedCellOriginalData == old(selectedCellOriginalData)
      ensures emitted == old(emitted) && published == old(published)
      ensures forall c :: c in old(allCells) || c in old(highlightedCells) ==>
        View(c) == (var v1 := if c in old(highlightedCells) then UnhighlightedView(old(View(c))) else old(View(c));
                    if c in highlightedCells then HighlightedView(v1, GetBorderCells(highlightedCells), c) else v1)
    {
      UnHighlightCells();
      var cellsInColumn := ColumnCells(allCells, column);
      highlightedCells := SelectionUtils.HighlightCells(cellsInColumn);
    }

    /** `unHighlightCells`: the flags cleared and the list emptied. */
    method UnHighlightCells()
      modifies this, highlightedCells
      ensures highlightedCells == []
      ensures allCells == old(allCells) && selectedCell == old(selectedCell) && config == old(config)
      ensures selectedCellOriginalData == old(selectedCellOriginalData)
      ensures emitted == old(emitted) && published == old(published)
      ensures forall c :: c in old(highlightedCells) ==> View(c) == UnhighlightedView(old(View(c)))
    {
      SelectionUtils.UnHighlightCells(highlightedCells);
      highlightedCells := [];
    }

    /** `deleteContentOfHighlightedCells`. */
    method DeleteContentOfHighlightedCells() returns (outcome: Outcome)
      requires Valid()
      requires config.Some?
      modifies this, allCells, highlightedCells, selectedCell
      ensures Valid()
      ensures config.Some?
      ensures var editing := old(selectedCell != null && selectedCell.contentEditable == "true");
        (Snapshot(), outcome) == DeleteStep(old(Snapshot()), editing) &&
        forall c :: c in old(allCells) || c in old(highlightedCells) || c == old(selectedCell) ==> View(c) == DeleteView(old(Snapshot()), editing, c, old(View(c)))
      ensures published == old(published)
    {
      if selectedCell != null && selectedCell.contentEditable == "true" {
        return Pass;
      }
      var editableColumnNames := GetColumnNames(config.value, Some(true));
      var locations := Locations(highlightedCells);
      var changes := PrepareDeletedData(Filter(locations, (l: CellLocation) => l.column in editableColumnNames));
      outcome := ApplyChanges(changes);
    }

    /** `acceptSelectedElementChanges`. */
    method AcceptSelectedElementChanges() returns (outcome: Outcome)
      requires Valid()
      requires config.Some?
      modifies this, allCells, highlightedCells, selectedCell
      ensures Valid()
      ensures config.Some?
      ensures (Snapshot(), outcome) == AcceptStep(old(Snapshot()), old(SelectedContent()))
      ensures forall c :: c in old(allCells) || c in old(highlightedCells) || c == old(selectedCell) ==> View(c) == AcceptView(old(Snapshot()), old(SelectedContent()), c, old(View(c)))
      ensures published == old(published)
    {
      if selectedCell == null {
        return Pass;
      }
      var newValue := Trim(selectedCell.content);
      if newValue != selectedCellOriginalData {
        var location := GetLocationFromCell(selectedCell);
        var changes := PrepareChangedData([CellDataChange(location, selectedCellOriginalData, newValue)]);
        outcome := ApplyChanges(changes);
      } else {
        outcome := Pass;
      }
    }

    /** `applyChanges(rawChanges)`. */
    method ApplyChanges(rawChanges: EmtDataChange) returns (outcome: Outcome)
      requires Valid()
      requires config.Some?
      modifies this, allCells, highlightedCells, selectedCell
      ensures Valid()
      ensures config.Some?
      ensures (Snapshot(), outcome) == CommitStep(old(Snapshot()), rawChanges)
      ensures forall c :: c in old(allCells) || c in old(highlightedCells) || c == old(selectedCell) ==>
        View(c) == CommitView(old(Snapshot()), rawChanges, c, old(View(c)))
      ensures published == old(published)
    {
      var changes := Intercept(config.value, rawChanges);
      if changes.None? {
        RejectSelectedElementChanges();
        return Pass;
      }
      ghost var applied := AppliedUpdates(config.value, changes.value.updated);
      outcome := ApplyUpdates(changes.value.updated);
      forall c: Cell | c !in allCells && (c in highlightedCells || c == selectedCell)
        ensures UpdatedContent(config.value, applied, allCells, c, old(c.content)) == old(c.content)
      {
        UpdatesTouchOnlyListed(config.value, applied, allCells, c, old(c.content));
      }
      if outcome.Fail? {
        return;
      }
      label Updated:
      outcome := FinishCommit(changes.value);
      forall c | c in old(allCells) || c in old(highlightedCells) || c == old(selectedCell)
        ensures View(c) == CommitView(old(Snapshot()), rawChanges, c, old(View(c)))
      {
        var v1 := old(View(c)).(content := UpdatedContent(config.value, applied, allCells, c, old(c.content)));
        assert old@Updated(View(c)) == v1;
        if c !in allCells && c !in highlightedCells {
          var targets := DeletionPhase(old(Snapshot()), changes.value);
          assert targets.Success? ==> c !in targets.value;
        }
      }
    }

    /** What `applyChanges` does after its update loop: empty the listed
        cells of editable columns, emit the change-set, clear the snapshot
        and the highlight. */
    method FinishCommit(changes: EmtDataChange) returns (outcome: Outcome)
      requires Valid()
      requires config.Some?
      modifies this, allCells, highlightedCells
      ensures Valid()
      ensures config.Some?
      ensures (Snapshot(), outcome) == FinishStep(old(Snapshot()), changes)
      ensures forall c :: c in old(allCells) || c in old(highlightedCells) ==>
        View(c) == FinishView(old(Snapshot()), changes, c, old(View(c)))
      ensures published == old(published)
    {
      if |changes.deleted| > 0 {
        var cellsToDeleteIds := Ids(changes.deleted);
        var targets := DeletionTargets(config.value, allCells, cellsToDeleteIds);
        if targets.Failure? {
          return Fail(targets.error);
        }
        SelectionUtils.DeleteCellContent(targets.value);
      }
      emitted := emitted + [changes];
      selectedCellOriginalData := "";
      UnHighlightCells();
      outcome := Pass;
    }

    /** One update of a known column: written into the first cell at its
        location when the column is editable. */
    method WriteUpdate(change: CellDataChange)
      requires config.Some? && change.location.column in config.value.columns
      modifies allCells
      ensures forall c :: c in allCells ==>
        View(c) == old(View(c)).(content := if Writes(config.value, allCells, change, c) then change.value else old(c.content))
    {
      if Editable(config.value.columns[change.location.column]) {
        var cell := GetCellFromLocation(change.location, allCells);
        if cell.Some? {
          cell.value.content := change.value;
        }
      }
    }

    /** The update loop of `applyChanges`: each update in an editable column
        writes its value into the first cell at its location; an unknown
        column throws. */
    method ApplyUpdates(updates: seq<CellDataChange>) returns (outcome: Outcome)
      requires config.Some?
      modifies allCells
      ensures var k := UnknownUpdate(config.value, updates);
        outcome == if k < 0 then Pass else Fail(InvalidColumn(updates[k].location.column))
      ensures forall c :: c in allCells ==>
        View(c) == old(View(c)).(content := UpdatedContent(config.value, AppliedUpdates(config.value, updates), allCells, c, old(c.content)))
    {
      for i := 0 to |updates|
        invariant forall j :: 0 <= j < i ==> updates[j].location.column in config.value.columns
        invariant forall c :: c in allCells ==>
          View(c) == old(View(c)).(content := UpdatedContent(config.value, updates[..i], allCells, c, old(c.content)))
      {
        var change := updates[i];
        assert updates[..i + 1][..i] == updates[..i];
        var cc := GetColumnConfig(config.value, change.location.column);
        if cc.Failure? {
          assert UnknownUpdate(config.value, updates) == i;
          return Fail(cc.error);
        }
        WriteUpdate(change);
        forall c | c in allCells
          ensures UpdatedContent(config.value, updates[..i + 1], allCells, c, old(c.content)) ==
            if Writes(config.value, allCells, change, c) then change.value
            else UpdatedContent(config.value, updates[..i], allCells, c, old(c.content))
        {
          UpdatedContentStep(config.value, updates, i, allCells, c, old(c.content));
        }
      }
      assert updates[..|updates|] == updates;
      outcome := Pass;
    }

    /** `rejectSelectedElementChanges`. */
    method RejectSelectedElementChanges()
      requires Valid()
      requires config.Some?
      modifies this, selectedCell
      ensures Valid()
      ensures config.Some? && Snapshot() == RejectStep(old(Snapshot()))
      ensures selectedCell != null ==> View(selectedCell) == RejectView(old(Snapshot()), selectedCell, old(View(selectedCell)))
      ensures published == old(published)
    {
      if selectedCell != null {
        selectedCell.content := selectedCellOriginalData;
        selectedCellOriginalData := "";
      }
      SelectionUtils.UnselectCell(selectedCell);
    }

    /** `unselectCells`: the selected cell is unselected, but stays the
        selected cell. */
    method UnselectCells()
      modifies selectedCell
      ensures selectedCell != null ==> View(selectedCell) == UnselectedView(old(View(selectedCell)))
    {
      if selectedCell != null {
        SelectionUtils.UnselectCell(selectedCell);
      }
    }

    /** `highlightedElementsToClipboard`: the text put on the clipboard, if
        anything is highlighted. */
    method HighlightedElementsToClipboard() returns (text: Option<string>)
      ensures highlightedCells == [] <==> text.None?
      ensures text.Some? ==> text.value == ClipboardText(ClipItems(highlightedCells))
    {
      if |highlightedCells| == 0 {
        return None;
      }
      var t := CopyTableCellsToClipboard(highlightedCells);
      text := Some(t);
    }

    /** `navigateCell(direction)`. */
    method NavigateCell(direction: Direction) returns (outcome: Outcome)
      requires Valid()
      requires config.Some?
      modifies this, allCells, selectedCell, highlightedCells
      ensures Valid()
      ensures config.Some?
      ensures var target := old(NavigationTarget(Snapshot(), direction));
        (Snapshot(), outcome) == NavigateStep(old(Snapshot()), direction, old(if target.Some? then target.value.content else ""))
      ensures forall c :: c in old(allCells) || c in old(highlightedCells) || c == old(selectedCell) ==> View(c) == NavigateView(old(Snapshot()), direction, c, old(View(c)))
      ensures published == old(published)
    {
      ghost var s0 := Snapshot();
      if selectedCell == null {
        return Pass;
      }
      var currentLocation := GetLocationFromCell(selectedCell);
      var row := currentLocation.row;
      var column: Option<string> := Some(currentLocation.column);
      if direction == Up {
        row := Plus(currentLocation.row, -1);
      } else if direction == Down {
        row := Plus(currentLocation.row, 1);
      } else {
        var columnNames := GetColumnNames(config.value, None);
        column := AdjacentColumn(columnNames, currentLocation.column, direction == Left);
      }
      if column.None? {
        return Pass;
      }
      var newCell := GetCellFromLocation(CellLocation(row, column.value, currentLocation.id), allCells);
      assert newCell == NavigationTarget(s0, direction);
      if newCell.None? {
        return Pass;
      }
      outcome := SelectCell(newCell.value);
    }
  }
}
