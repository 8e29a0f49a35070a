/** Selection and highlight primitives: which cells a dragged rectangle
    covers, which of them form its border, and the per-cell class and
    attribute updates that show selection and highlighting. */
module SelectionUtils {
  import opened JsRuntime
  import opened Dom

  const SELECTED_CLASS: string := "selected"
  const HIGHLIGHT_CLASS: string := "highlighted"
  const TOP_CELL_CLASS: string := "top-cell-class"
  const BOTTOM_CELL_CLASS: string := "bottom-cell-class"
  const LEFT_CELL_CLASS: string := "left-cell-class"
  const RIGHT_CELL_CLASS: string := "right-cell-class"
  const INITIAL_SELECTION_CELL_CLASS: string := "initial-selection-cell"

  function Min(a: int, b: int): int { if a <= b then a else b }
  function Max(a: int, b: int): int { if a <= b then b else a }

  /** A box overlaps, with nonzero measure on both axes, the rectangle that
      has the two points as opposite corners. */
  predicate InRectangle(r: Rect, x1: int, y1: int, x2: int, y2: int) {
    Min(x1, x2) < r.right && r.left < Max(x1, x2) &&
    Min(y1, y2) < r.bottom && r.top < Max(y1, y2)
  }

  /** `getElementsInRectangle`: the cells, in order, whose box overlaps the
      rectangle spanned by the two points. */
  function GetElementsInRectangle(cells: seq<Cell>, x1: int, y1: int, x2: int, y2: int): (r: seq<Cell>)
    ensures SelectedFrom(r, cells, (c: Cell) => InRectangle(c.rect, x1, y1, x2, y2))
  {
    var minX, minY, maxX, maxY := Min(x1, x2), Min(y1, y2), Max(x1, x2), Max(y1, y2);
    var inside := (c: Cell) => c.rect.left < maxX && c.rect.right > minX && c.rect.top < maxY && c.rect.bottom > minY;
    FilterSelects(cells, inside);
    Filter(cells, inside)
  }

  /** Swapping the two corners, or exchanging one coordinate between them,
      covers the same cells: the bounds are taken per axis. */
  lemma RectangleCornersInterchangeable(cells: seq<Cell>, x1: int, y1: int, x2: int, y2: int)
    ensures GetElementsInRectangle(cells, x2, y2, x1, y1) == GetElementsInRectangle(cells, x1, y1, x2, y2)
    ensures GetElementsInRectangle(cells, x2, y1, x1, y2) == GetElementsInRectangle(cells, x1, y1, x2, y2)
  {
    assert Min(x2, x1) == Min(x1, x2) && Max(x2, x1) == Max(x1, x2);
    assert Min(y2, y1) == Min(y1, y2) && Max(y2, y1) == Max(y1, y2);
  }

  /** Covering a list is covering each part of it: the result is the
      order-preserving selection of the covered cells. */
  lemma RectangleOfConcat(a: seq<Cell>, b: seq<Cell>, x1: int, y1: int, x2: int, y2: int)
    ensures GetElementsInRectangle(a + b, x1, y1, x2, y2) ==
            GetElementsInRectangle(a, x1, y1, x2, y2) + GetElementsInRectangle(b, x1, y1, x2, y2)
  {
    var minX, minY, maxX, maxY := Min(x1, x2), Min(y1, y2), Max(x1, x2), Max(y1, y2);
    var inside := (c: Cell) => c.rect.left < maxX && c.rect.right > minX && c.rect.top < maxY && c.rect.bottom > minY;
    FilterConcat(a, b, inside);
  }

  /** The four edges of a highlighted block. */
  datatype Borders = Borders(top: seq<Cell>, bottom: seq<Cell>, left: seq<Cell>, right: seq<Cell>)

  predicate HasHeight(c: Cell) { c.rect.top != c.rect.bottom }

  predicate OnTopEdge(c: Cell, first: Cell) { HasHeight(c) && c.rect.top == first.rect.top }
  predicate OnLeftEdge(c: Cell, first: Cell) { HasHeight(c) && c.rect.left == first.rect.left }
  predicate OnBottomEdge(c: Cell, last: Cell) { HasHeight(c) && c.rect.bottom == last.rect.bottom }
  predicate OnRightEdge(c: Cell, last: Cell) { HasHeight(c) && c.rect.right == last.rect.right }

  /** `getBorderCells`: each edge list keeps, in order, the cells of nonzero
      height whose top or left matches the first cell's, or whose bottom or
      right matches the last cell's; no input gives four empty lists. */
  function GetBorderCells(cells: seq<Cell>): (b: Borders)
    ensures cells == [] ==> b == Borders([], [], [], [])
    ensures cells != [] ==>
      var first, last := cells[0], cells[|cells| - 1];
      SelectedFrom(b.top, cells, (c: Cell) => OnTopEdge(c, first)) &&
      SelectedFrom(b.bottom, cells, (c: Cell) => OnBottomEdge(c, last)) &&
      SelectedFrom(b.left, cells, (c: Cell) => OnLeftEdge(c, first)) &&
      SelectedFrom(b.right, cells, (c: Cell) => OnRightEdge(c, last))
  {
    if cells == [] then Borders([], [], [], [])
    else
      var first, last := cells[0], cells[|cells| - 1];
      var top := (c: Cell) => OnTopEdge(c, first);
      var bottom := (c: Cell) => OnBottomEdge(c, last);
      var left := (c: Cell) => OnLeftEdge(c, first);
      var right := (c: Cell) => OnRightEdge(c, last);
      FilterSelects(cells, top);
      FilterSelects(cells, bottom);
      FilterSelects(cells, left);
      FilterSelects(cells, right);
      Borders(Filter(cells, top), Filter(cells, bottom), Filter(cells, left), Filter(cells, right))
  }

  // ---------------------------------------------------------------------
  // Per-cell updates, stated on snapshots of a cell's mutable part

  /** `classList.add(name)` when `on`, `classList.remove(name)` otherwise. */
  function SetClass(classes: set<string>, name: string, on: bool): (r: set<string>)
    ensures name in r <==> on
    ensures forall other :: other != name ==> (other in r <==> other in classes)
  {
    if on then classes + {name} else classes - {name}
  }

  /** Editable, flagged `selected`. */
  function SelectedView(v: CellView): CellView {
    v.(contentEditable := "true", classes := v.classes + {SELECTED_CLASS})
  }

  /** Not editable, `selected` flag removed. */
  function UnselectedView(v: CellView): CellView {
    v.(contentEditable := "false", classes := v.classes - {SELECTED_CLASS})
  }

  /** The highlight and anchor flags removed; nothing else touched. */
  function UnhighlightedView(v: CellView): CellView {
    v.(classes := v.classes - {HIGHLIGHT_CLASS, INITIAL_SELECTION_CELL_CLASS})
  }

  /** Each border flag set exactly when the cell is in that edge list. */
  function BorderClasses(classes: set<string>, b: Borders, c: Cell): set<string> {
    var cs := SetClass(classes, TOP_CELL_CLASS, c in b.top);
    var cs := SetClass(cs, BOTTOM_CELL_CLASS, c in b.bottom);
    var cs := SetClass(cs, LEFT_CELL_CLASS, c in b.left);
    SetClass(cs, RIGHT_CELL_CLASS, c in b.right)
  }

  lemma BorderClassesIdempotent(classes: set<string>, b: Borders, c: Cell)
    ensures BorderClasses(BorderClasses(classes, b, c), b, c) == BorderClasses(classes, b, c)
  {
  }

  /** Flagged `highlighted`, each border flag set exactly when the cell is in
      that edge list. */
  function HighlightedView(v: CellView, b: Borders, c: Cell): CellView {
    v.(classes := BorderClasses(v.classes + {HIGHLIGHT_CLASS}, b, c))
  }

  /** The anchor flag set exactly on the drag's starting cell. */
  function AnchoredView(v: CellView, isAnchor: bool): CellView {
    v.(classes := SetClass(v.classes, INITIAL_SELECTION_CELL_CLASS, isAnchor))
  }

  /** Content emptied; nothing else touched. */
  function ClearedView(v: CellView): CellView {
    v.(content := "")
  }

  /** Unselecting twice is unselecting once. */
  lemma UnselectIdempotent(v: CellView)
    ensures UnselectedView(UnselectedView(v)) == UnselectedView(v)
  {
  }

  // ---------------------------------------------------------------------
  // The in-place operations

  /** `selectCell`: makes the cell editable and flags it `selected`. */
  method SelectCell(el: Cell)
    modifies el
    ensures View(el) == SelectedView(old(View(el)))
  {
    el.contentEditable := "true";
    el.classes := el.classes + {SELECTED_CLASS};
  }

  /** `unselectCell`: nothing for undefined; otherwise not editable and the
      `selected` flag removed. */
  method UnselectCell(el: Cell?)
    modifies el
    ensures el != null ==> View(el) == UnselectedView(old(View(el)))
  {
    if el == null {
      return;
    }
    el.contentEditable := "false";
    el.classes := el.classes - {SELECTED_CLASS};
  }

  /** `highlightCells`: every given cell flagged `highlighted` (the source's
      membership test before adding the flag always holds, so the flag is
      never removed here), each border flag set exactly on the cells of that
      edge list; the list itself is returned unchanged. */
  method HighlightCells(cells: seq<Cell>) returns (r: seq<Cell>)
    modifies cells
    ensures r == cells
    ensures forall c :: c in cells ==> View(c) == HighlightedView(old(View(c)), GetBorderCells(cells), c)
  {
    AddHighlightClass(cells);
    var borders := GetBorderCells(cells);
    SetBorderClasses(cells, borders);
    r := cells;
  }

  /** The first loop of `highlightCells`. */
  method AddHighlightClass(cells: seq<Cell>)
    modifies cells
    ensures forall c :: c in cells ==> View(c) == old(View(c)).(classes := old(c.classes) + {HIGHLIGHT_CLASS})
  {
    for i := 0 to |cells|
      invariant forall c :: c in cells[..i] ==> View(c) == old(View(c)).(classes := old(c.classes) + {HIGHLIGHT_CLASS})
      invariant forall c :: c in cells && c !in cells[..i] ==> View(c) == old(View(c))
    {
      assert cells[..i + 1] == cells[..i] + [cells[i]];
      // `cells.includes(cells[i])` always holds: the flag is only ever added
      cells[i].classes := cells[i].classes + {HIGHLIGHT_CLASS};
    }
    assert cells[..|cells|] == cells;
  }

  /** The second loop of `highlightCells`. */
  method SetBorderClasses(cells: seq<Cell>, borders: Borders)
    modifies cells
    ensures forall c :: c in cells ==> View(c) == old(View(c)).(classes := BorderClasses(old(c.classes), borders, c))
  {
    for i := 0 to |cells|
      invariant forall c :: c in cells[..i] ==> View(c) == old(View(c)).(classes := BorderClasses(old(c.classes), borders, c))
      invariant forall c :: c in cells && c !in cells[..i] ==> View(c) == old(View(c))
    {
      assert cells[..i + 1] == cells[..i] + [cells[i]];
      var cell := cells[i];
      BorderClassesIdempotent(cell.classes, borders, cell);
      cell.classes := BorderClasses(cell.classes, borders, cell);
    }
    assert cells[..|cells|] == cells;
  }

  /** `highlightCellsWithMouse`: highlights the cells the rectangle between the
      two pointer positions covers, sets the anchor flag exactly on the one that
      is the first event's target, and returns them. */
  method HighlightCellsWithMouse(initial: MouseEvent, current: MouseEvent, cells: seq<Cell>) returns (r: seq<Cell>)
    modifies cells
    ensures r == GetElementsInRectangle(cells, initial.x, initial.y, current.x, current.y)
    ensures forall c :: c in r ==>
      View(c) == AnchoredView(HighlightedView(old(View(c)), GetBorderCells(r), c), c == initial.target)
    ensures forall c :: c in cells && c !in r ==> View(c) == old(View(c))
  {
    r := GetElementsInRectangle(cells, initial.x, initial.y, current.x, current.y);
    var _ := HighlightCells(r);
    SetAnchorClass(r, initial.target);
  }

  /** The loop of `highlightCellsWithMouse` over the covered cells. */
  method SetAnchorClass(cells: seq<Cell>, target: Cell?)
    modifies cells
    ensures forall c :: c in cells ==> View(c) == AnchoredView(old(View(c)), c == target)
  {
    for i := 0 to |cells|
      invariant forall c :: c in cells[..i] ==> View(c) == AnchoredView(old(View(c)), c == target)
      invariant forall c :: c in cells && c !in cells[..i] ==> View(c) == old(View(c))
    {
      assert cells[..i + 1] == cells[..i] + [cells[i]];
      var cell := cells[i];
      if target == cell {
        cell.classes := cell.classes + {INITIAL_SELECTION_CELL_CLASS};
      } else {
        cell.classes := cell.classes - {INITIAL_SELECTION_CELL_CLASS};
      }
    }
    assert cells[..|cells|] == cells;
  }

  /** `unHighlightCells`: removes the highlight and anchor flags and nothing
      else. */
  method UnHighlightCells(cells: seq<Cell>)
    modifies cells
    ensures forall c :: c in cells ==> View(c) == UnhighlightedView(old(View(c)))
  {
    for i := 0 to |cells|
      invariant forall c :: c in cells[..i] ==> View(c) == UnhighlightedView(old(View(c)))
      invariant forall c :: c in cells && c !in cells[..i] ==> View(c) == old(View(c))
    {
      assert cells[..i + 1] == cells[..i] + [cells[i]];
      cells[i].classes := cells[i].classes - {HIGHLIGHT_CLASS};
      cells[i].classes := cells[i].classes - {INITIAL_SELECTION_CELL_CLASS};
    }
    assert cells[..|cells|] == cells;
  }

  /** `deleteCellContent`: empties every given cell and changes nothing else. */
  method DeleteCellContent(cells: seq<Cell>)
    modifies cells
    ensures forall c :: c in cells ==> View(c) == ClearedView(old(View(c)))
  {
    for i := 0 to |cells|
      invariant forall c :: c in cells[..i] ==> View(c) == ClearedView(old(View(c)))
      invariant forall c :: c in cells && c !in cells[..i] ==> View(c) == old(View(c))
    {
      assert cells[..i + 1] == cells[..i] + [cells[i]];
      cells[i].content := "";
    }
    assert cells[..|cells|] == cells;
  }
}
