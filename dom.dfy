/** The part of a rendered table cell (`td.emt-cell`) that the core reads and
    writes. The identity attributes, the parent row and the layout box are
    never changed by the core, so they are constants; the content, the
    `contentEditable` attribute and the class list are updated in place. */
module Dom {

  /** `getBoundingClientRect()`, in whole pixels. */
  datatype Rect = Rect(left: int, top: int, right: int, bottom: int)

  class Cell {
    /** The `data-emt-x` attribute: the column key. */
    const x: string
    /** The `data-emt-y` attribute: the row index as text. */
    const y: string
    /** The identity of the parent row element. */
    const parent: nat
    /** The cell's layout box. */
    const rect: Rect
    /** `innerHTML`. */
    var content: string
    /** The `contentEditable` attribute: "true", "false" or "inherit". */
    var contentEditable: string
    /** The class list. */
    var classes: set<string>

    constructor (x: string, y: string, parent: nat, rect: Rect, content: string)
      ensures this.x == x && this.y == y && this.parent == parent && this.rect == rect
      ensures this.content == content && contentEditable == "inherit" && classes == {}
    {
      this.x := x;
      this.y := y;
      this.parent := parent;
      this.rect := rect;
      this.content := content;
      contentEditable := "inherit";
      classes := {};
    }
  }

  /** A snapshot of the mutable part of a cell. */
  datatype CellView = CellView(content: string, contentEditable: string, classes: set<string>)

  ghost function View(c: Cell): CellView
    reads c
  {
    CellView(c.content, c.contentEditable, c.classes)
  }

  /** The fields of a mouse event the core reads: pointer position and target. */
  datatype MouseEvent = MouseEvent(x: int, y: int, target: Cell?)
}
