/** The text side of the clipboard bridge: building tab/newline separated
    text from highlighted cells, and reading a pasted HTML table into rows of
    cell texts. */
module Clipboard {
  import opened Wrappers
  import opened JsRuntime
  import opened Dom

  /** `stringFromCell`: the cell's content with the surrounding white space
      cut off, and nothing else removed. */
  function StringFromCell(c: Cell): (r: string)
    reads c
    ensures var k := |c.content| - |TrimStart(c.content)|;
      0 <= k && k + |r| <= |c.content| && r == c.content[k..k + |r|] &&
      (forall i :: 0 <= i < k ==> IsWhiteSpace(c.content[i])) &&
      (forall i :: k + |r| <= i < |c.content| ==> IsWhiteSpace(c.content[i])) &&
      (r == [] || (!IsWhiteSpace(r[0]) && !IsWhiteSpace(r[|r| - 1])))
  {
    TrimSpec(c.content);
    Trim(c.content)
  }

  /** What the text building reads of a cell: its parent row and its text. */
  datatype ClipItem = ClipItem(parent: nat, text: string)

  function ClipItems(cells: seq<Cell>): (items: seq<ClipItem>)
    reads cells
    ensures |items| == |cells|
    ensures forall i :: 0 <= i < |cells| ==> items[i] == ClipItem(cells[i].parent, StringFromCell(cells[i]))
  {
    if cells == [] then [] else [ClipItem(cells[0].parent, StringFromCell(cells[0]))] + ClipItems(cells[1..])
  }

  function Texts(items: seq<ClipItem>): seq<string> {
    seq(|items|, i requires 0 <= i < |items| => items[i].text)
  }

  /** The cells grouped into rows: a new row starts wherever a cell's parent
      differs from the previous cell's. No row is empty. */
  function Rows(items: seq<ClipItem>): (rows: seq<seq<string>>)
    ensures rows == [] <==> items == []
  {
    if items == [] then []
    else if |items| == 1 then [[items[0].text]]
    else
      var n := |items|;
      var prev := Rows(items[..n - 1]);
      if items[n - 2].parent != items[n - 1].parent then prev + [[items[n - 1].text]]
      else prev[..|prev| - 1] + [prev[|prev| - 1] + [items[n - 1].text]]
  }

  lemma {:induction false} RowsNonEmpty(items: seq<ClipItem>)
    ensures forall k :: 0 <= k < |Rows(items)| ==> Rows(items)[k] != []
  {
    if |items| > 1 {
      RowsNonEmpty(items[..|items| - 1]);
    }
  }

  function RowTexts(rows: seq<seq<string>>): seq<string> {
    seq(|rows|, k requires 0 <= k < |rows| => Join(rows[k], '\t'))
  }

  /** The clipboard text: cells of a row joined by tabs, rows by newlines. */
  function ClipboardText(items: seq<ClipItem>): string {
    Join(RowTexts(Rows(items)), '\n')
  }

  /** `copyTableCellsToClipboard` up to the clipboard write: the text it
      builds, step by step, from the cells' parents and trimmed contents. */
  method CopyTableCellsToClipboard(cells: seq<Cell>) returns (text: string)
    ensures text == ClipboardText(ClipItems(cells))
    ensures cells == [] ==> text == ""
  {
    ghost var items := ClipItems(cells);
    var rows: seq<string> := [];
    var rowItems: seq<string> := [];
    var lastParent: Option<nat> := None;
    ghost var done: seq<seq<string>> := [];
    for i := 0 to |cells|
      invariant i == 0 ==> lastParent.None? && done == [] && rowItems == []
      invariant i > 0 ==> lastParent == Some(cells[i - 1].parent) && Rows(items[..i]) == done + [rowItems]
      invariant rows == RowTexts(done)
    {
      var el := cells[i];
      var t := StringFromCell(el);
      RowsGrow(items, i, done, rowItems);
      if lastParent.Some? && el.parent != lastParent.value {
        RowTextsSnoc(done, rowItems);
        rows := rows + [Join(rowItems, '\t')];
        done := done + [rowItems];
        rowItems := [];
      }
      rowItems := rowItems + [t];
      lastParent := Some(el.parent);
    }
    RowTextsSnoc(done, rowItems);
    rows := rows + [Join(rowItems, '\t')];
    assert items[..|cells|] == items;
    text := Join(rows, '\n');
  }

  lemma RowTextsSnoc(rows: seq<seq<string>>, row: seq<string>)
    ensures RowTexts(rows + [row]) == RowTexts(rows) + [Join(row, '\t')]
  {
  }

  /** One more cell starts a new row when it is the first cell or its parent
      differs from the previous cell's, and extends the last row otherwise. */
  lemma RowsGrow(items: seq<ClipItem>, i: nat, done: seq<seq<string>>, last: seq<string>)
    requires i < |items|
    requires i == 0 ==> done == [] && last == []
    requires i > 0 ==> Rows(items[..i]) == done + [last]
    ensures var newRow := i > 0 && items[i - 1].parent != items[i].parent;
      Rows(items[..i + 1]) ==
        (if newRow then done + [last] else done) + [(if newRow then [] else last) + [items[i].text]]
  {
    if i == 0 {
      assert items[..1] == [items[0]];
    } else {
      assert items[..i + 1][..i] == items[..i];
      assert (done + [last])[..|done|] == done;
      assert [] + [items[i].text] == [items[i].text];
    }
  }

  // ---------------------------------------------------------------------
  // What the text is: an independent, cell-by-cell description

  /** The separator written between two consecutive cells. */
  function Separator(a: ClipItem, b: ClipItem): char {
    if a.parent == b.parent then '\t' else '\n'
  }

  /** Every cell's text, in order, each consecutive pair separated by a tab
      when they share a parent and by a newline when the parent changes. */
  function Interleaved(items: seq<ClipItem>): string {
    if items == [] then ""
    else if |items| == 1 then items[0].text
    else
      var n := |items|;
      Interleaved(items[..n - 1]) + [Separator(items[n - 2], items[n - 1])] + items[n - 1].text
  }

  lemma {:induction false} JoinSnoc(parts: seq<string>, last: string, sep: char)
    requires parts != []
    ensures Join(parts + [last], sep) == Join(parts, sep) + [sep] + last
  {
    if |parts| > 1 {
      assert (parts + [last])[1..] == parts[1..] + [last];
      JoinSnoc(parts[1..], last, sep);
    }
  }

  lemma JoinExtendLast(parts: seq<string>, last: string, more: string, sep: char)
    ensures Join(parts + [last + more], sep) == Join(parts + [last], sep) + more
  {
    if parts == [] {
      assert [last + more] == parts + [last + more];
    } else {
      JoinSnoc(parts, last + more, sep);
      JoinSnoc(parts, last, sep);
    }
  }

  /** The built text is exactly the interleaving: each cell's text once, in
      order, a tab between cells of one row and a newline between rows. */
  lemma {:induction false} ClipboardTextInterleaves(items: seq<ClipItem>)
    ensures ClipboardText(items) == Interleaved(items)
  {
    if |items| > 1 {
      var n := |items|;
      var t := items[n - 1].text;
      var prev := Rows(items[..n - 1]);
      ClipboardTextInterleaves(items[..n - 1]);
      assert prev != [];
      if items[n - 2].parent != items[n - 1].parent {
        assert RowTexts(prev + [[t]]) == RowTexts(prev) + [t];
        JoinSnoc(RowTexts(prev), t, '\n');
      } else {
        var m := |prev|;
        var row := prev[m - 1];
        assert RowTexts(prev[..m - 1] + [row + [t]]) == RowTexts(prev)[..m - 1] + [Join(row, '\t') + ['\t'] + t] by {
          JoinSnoc(row, t, '\t');
        }
        JoinExtendLast(RowTexts(prev)[..m - 1], Join(row, '\t'), ['\t'] + t, '\n');
        assert RowTexts(prev)[..m - 1] + [Join(row, '\t')] == RowTexts(prev);
        assert Join(row, '\t') + ['\t'] + t == Join(row, '\t') + (['\t'] + t);
        assert Interleaved(items) == Interleaved(items[..n - 1]) + ['\t'] + t;
      }
    }
  }

  /** Number of places where a cell's parent differs from the previous cell's. */
  function ParentChanges(items: seq<ClipItem>): nat {
    if |items| <= 1 then 0
    else
      var n := |items|;
      ParentChanges(items[..n - 1]) + (if items[n - 2].parent != items[n - 1].parent then 1 else 0)
  }

  /** One row more than there are parent changes. */
  lemma {:induction false} RowCount(items: seq<ClipItem>)
    requires items != []
    ensures |Rows(items)| == 1 + ParentChanges(items)
  {
    if |items| > 1 {
      RowCount(items[..|items| - 1]);
    }
  }

  function Flatten(rows: seq<seq<string>>): seq<string> {
    if rows == [] then [] else Flatten(rows[..|rows| - 1]) + rows[|rows| - 1]
  }

  /** Reading the rows left to right gives every cell's text once, in order. */
  lemma {:induction false} RowsKeepEveryText(items: seq<ClipItem>)
    ensures Flatten(Rows(items)) == Texts(items)
  {
    if |items| > 1 {
      var n := |items|;
      var prev := Rows(items[..n - 1]);
      RowsKeepEveryText(items[..n - 1]);
      assert Texts(items) == Texts(items[..n - 1]) + [items[n - 1].text];
      var rows := Rows(items);
      if items[n - 2].parent == items[n - 1].parent {
        var m := |prev|;
        assert rows[..m - 1] == prev[..m - 1];
        assert prev[..m - 1] + [prev[m - 1]] == prev;
        assert Flatten(prev) == Flatten(prev[..m - 1]) + prev[m - 1];
      } else {
        assert rows[..|rows| - 1] == prev;
      }
    } else if |items| == 1 {
      assert Rows(items)[..0] == [];
    }
  }

  predicate TextAvoids(items: seq<ClipItem>, ch: char) {
    forall i :: 0 <= i < |items| ==> ch !in items[i].text
  }

  lemma {:induction false} RowsAvoid(items: seq<ClipItem>, ch: char)
    requires TextAvoids(items, ch)
    ensures forall k, j :: 0 <= k < |Rows(items)| && 0 <= j < |Rows(items)[k]| ==> ch !in Rows(items)[k][j]
  {
    if |items| > 1 {
      RowsAvoid(items[..|items| - 1], ch);
    }
  }

  /** Splitting the text on newlines and then on tabs. */
  function SplitRows(text: string): seq<seq<string>> {
    var lines := Split(text, '\n');
    seq(|lines|, k requires 0 <= k < |lines| => Split(lines[k], '\t'))
  }

  /** When no cell text holds a tab or a newline, splitting the text gives the
      texts back, grouped by parent row. */
  lemma ClipboardTextSplits(items: seq<ClipItem>)
    requires items != []
    requires TextAvoids(items, '\t') && TextAvoids(items, '\n')
    ensures SplitRows(ClipboardText(items)) == Rows(items)
  {
    var rows := Rows(items);
    RowsAvoid(items, '\t');
    RowsAvoid(items, '\n');
    var lines := RowTexts(rows);
    RowsNonEmpty(items);
    forall k | 0 <= k < |lines| ensures '\n' !in lines[k] && Split(lines[k], '\t') == rows[k] {
      JoinAvoids(rows[k], '\t', '\n');
      SplitJoin(rows[k], '\t');
    }
    SplitJoin(lines, '\n');
  }

  // ---------------------------------------------------------------------
  // Reading a pasted table

  datatype TableCell = TableCell(textContent: string)
  datatype TableRow = TableRow(cells: seq<TableCell>)
  datatype Table = Table(rows: seq<TableRow>)

  /** `pastedTableToData`: one entry per table row, in order; entry `i` holds
      the text content of each cell of row `i`, in order. */
  method PastedTableToData(table: Table) returns (data: seq<seq<string>>)
    ensures |data| == |table.rows|
    ensures forall i :: 0 <= i < |data| ==>
      |data[i]| == |table.rows[i].cells| &&
      forall j :: 0 <= j < |data[i]| ==> data[i][j] == table.rows[i].cells[j].textContent
  {
    data := [];
    for i := 0 to |table.rows|
      invariant |data| == i
      invariant forall r :: 0 <= r < i ==>
        |data[r]| == |table.rows[r].cells| &&
        forall j :: 0 <= j < |data[r]| ==> data[r][j] == table.rows[r].cells[j].textContent
    {
      var row := table.rows[i];
      var rowData: seq<string> := [];
      for j := 0 to |row.cells|
        invariant |rowData| == j
        invariant forall k :: 0 <= k < j ==> rowData[k] == row.cells[k].textContent
      {
        rowData := rowData + [row.cells[j].textContent];
      }
      data := data + [rowData];
    }
  }
}
