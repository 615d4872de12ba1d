/**
 * What the `Screen` operations do to the visible cells and the cursor, as
 * functions of the cells and cursor before them. Each function follows one
 * method of `src/screen.rs` step by step; the lemmas state what it means row
 * by row and cell by cell.
 */
module ScreenSpec {
  import opened Primitives
  import opened Colors
  import opened ControlCode
  import opened Grid

  /** The grid size and scrolling region, which text output reads but does not change. */
  datatype Layout = Layout(rows: u16, cols: u16, region: Range)

  /**
   * A grid of at least one cell, small enough that `row + 1` and `col + 1`
   * cannot overflow, with a scrolling region clamped to the grid (the
   * region's start may lie after its end).
   */
  predicate LayoutOk(l: Layout) {
    && 1 <= l.rows < U16_MAX && 1 <= l.cols < U16_MAX
    && l.region.start <= l.rows && l.region.end <= l.rows
  }

  /** The visible cells and the cursor: what text output changes. */
  datatype Page = Page(cells: seq<GridCell>, cursor: Position)

  /** The cursor row lies inside the grid; its column may sit at `cols`, a pending wrap. */
  predicate PageOk(p: Page, l: Layout) {
    |p.cells| == l.rows as int * l.cols as int && p.cursor.row < l.rows && p.cursor.col <= l.cols
  }

  predicate InGrid(l: Layout, row: int, col: int) {
    0 <= row < l.rows as int && 0 <= col < l.cols as int
  }

  /** The cell at `row`, `col`. */
  function CellAt(s: seq<GridCell>, l: Layout, row: int, col: int): GridCell
    requires |s| == l.rows as int * l.cols as int && InGrid(l, row, col)
  {
    OffsetBelow(row, col, l.rows as int, l.cols as int);
    s[Offset(row, col, l.cols as int)]
  }

  /** `empty_cell`: `GridCell::empty` in the current style. */
  function Blank(style: Styles): (cell: GridCell)
    ensures cell.style == style
    ensures cell == EMPTY_CELL <==> style == 0
  {
    GridCell(' ', DEFAULT_FOREGROUND, DEFAULT_BACKGROUND, style)
  }

  // ---------------------------------------------------------------- scrolling

  /** `scroll_up(count)`: move the region's rows `count` up and clear the rows left behind at its bottom. */
  function ScrolledUp(s: seq<GridCell>, l: Layout, count: u16, blank: GridCell): (t: seq<GridCell>)
    requires LayoutOk(l) && |s| == l.rows as int * l.cols as int
    requires l.region.start as int + count as int <= U16_MAX as int
    ensures |t| == |s|
  {
    if l.region.start as int + count as int > l.region.end as int then s
    else
      FillSpec(CopySpec(s, l.rows, l.cols, Between(l.region.start + count, l.region.end), l.region.start),
               l.rows, l.cols, Between(l.region.end - count, l.region.end), FULL, blank)
  }

  /**
   * After `scroll_up(count)` each region row above the last `count` holds the
   * row `count` below it, the last `count` region rows are blank, and the rows
   * outside the region are untouched. When `count` exceeds the region nothing
   * changes at all.
   */
  lemma {:induction false} ScrollUpCell(s: seq<GridCell>, l: Layout, count: u16, blank: GridCell, row: int, col: int)
    requires LayoutOk(l) && |s| == l.rows as int * l.cols as int && InGrid(l, row, col)
    requires l.region.start as int + count as int <= U16_MAX as int
    ensures CellAt(ScrolledUp(s, l, count, blank), l, row, col) ==
      if l.region.end as int < l.region.start as int + count as int then CellAt(s, l, row, col)
      else if l.region.end as int - count as int <= row < l.region.end as int then blank
      else if l.region.start as int <= row < l.region.end as int - count as int then CellAt(s, l, row + count as int, col)
      else CellAt(s, l, row, col)
  {
    var start, end := l.region.start, l.region.end;
    if start as int + count as int <= end as int {
      CopyFitsRows(l.rows, l.cols, start + count, end, start);
      var copied := CopySpec(s, l.rows, l.cols, Between(start + count, end), start);
      FillRegionCell(copied, l.rows, l.cols, Between(end - count, end), FULL, blank, row, col);
      CopyRowsCell(s, l.rows, l.cols, Between(start + count, end), start, row, col);
    }
  }

  /** What `scroll_down(count)` demands: a copy that is carried out must fit in the grid. */
  predicate ScrollDownFits(l: Layout, count: u16) {
    l.region.start > SaturatingSub(l.region.end, count) || count <= l.rows
  }

  /**
   * `scroll_down(count)` as written: the rows `start .. end - count` are copied
   * to row `count` (not to `start + count`), then the rows `start .. count` are
   * cleared.
   */
  function ScrolledDown(s: seq<GridCell>, l: Layout, count: u16, blank: GridCell): (t: seq<GridCell>)
    requires LayoutOk(l) && |s| == l.rows as int * l.cols as int && ScrollDownFits(l, count)
    ensures |t| == |s|
  {
    if l.region.start > SaturatingSub(l.region.end, count) then s
    else
      FillSpec(CopySpec(s, l.rows, l.cols, Between(l.region.start, SaturatingSub(l.region.end, count)), count),
               l.rows, l.cols, Between(l.region.start, count), FULL, blank)
  }

  /**
   * After `scroll_down(count)` the rows `start .. count` are blank, the rows
   * from `count` on take the old rows from `start` on, for as many rows as the
   * region has beyond `count`, and every other row is untouched. A region
   * starting at the top therefore scrolls down by `count`; one starting lower
   * has its rows moved to row `count`, which may lie above the region.
   */
  lemma {:induction false} ScrollDownCell(s: seq<GridCell>, l: Layout, count: u16, blank: GridCell, row: int, col: int)
    requires LayoutOk(l) && |s| == l.rows as int * l.cols as int && InGrid(l, row, col) && ScrollDownFits(l, count)
    ensures l.region.start <= SaturatingSub(l.region.end, count) &&
            count as int <= row < count as int + (SaturatingSub(l.region.end, count) - l.region.start) ==>
              InGrid(l, row - count as int + l.region.start as int, col)
    ensures CellAt(ScrolledDown(s, l, count, blank), l, row, col) ==
      if l.region.start > SaturatingSub(l.region.end, count) then CellAt(s, l, row, col)
      else if l.region.start as int <= row < count as int then blank
      else if count as int <= row < count as int + (SaturatingSub(l.region.end, count) - l.region.start)
      then CellAt(s, l, row - count as int + l.region.start as int, col)
      else CellAt(s, l, row, col)
  {
    var start, copyEnd := l.region.start, SaturatingSub(l.region.end, count);
    if start <= copyEnd {
      CopyFitsRows(l.rows, l.cols, start, copyEnd, count);
      var copied := CopySpec(s, l.rows, l.cols, Between(start, copyEnd), count);
      FillRegionCell(copied, l.rows, l.cols, Between(start, count), FULL, blank, row, col);
      CopyRowsCell(s, l.rows, l.cols, Between(start, copyEnd), count, row, col);
    }
  }

  /** A region that starts below row `count` has its first row copied to row `count`, outside the region. */
  lemma {:induction false} ScrollDownLeavesRegion(s: seq<GridCell>, l: Layout, count: u16, blank: GridCell, col: int)
    requires LayoutOk(l) && |s| == l.rows as int * l.cols as int && 0 <= col < l.cols as int
    requires count < l.region.start < SaturatingSub(l.region.end, count)
    ensures count < l.region.start && InGrid(l, count as int, col) && InGrid(l, l.region.start as int, col)
    ensures CellAt(ScrolledDown(s, l, count, blank), l, count as int, col) == CellAt(s, l, l.region.start as int, col)
  {
    ScrollDownCell(s, l, count, blank, count as int, col);
  }

  // ---------------------------------------------------------------- inserting and deleting lines

  /** `cursor.row.saturating_add(count).min(scrolling_region.end)`. */
  function ClearEnd(row: u16, count: u16, end: u16): (e: u16)
    ensures e <= end
    ensures row <= end ==> e as int == row as int + Min(count as int, end as int - row as int)
    ensures end < row ==> e == end
  {
    Min(SaturatingAdd(row, count) as int, end as int) as u16
  }

  /** `cursor.row + rows_below`, where `rows_below` is the part of the region below `ClearEnd`. */
  function CopyEnd(row: u16, count: u16, end: u16): (e: u16)
    ensures e as int == row as int + (end as int - ClearEnd(row, count, end) as int)
  {
    (row as int + (end as int - ClearEnd(row, count, end) as int)) as u16
  }

  /** `insert_lines(count)` at cursor row `row`. */
  function InsertedLines(s: seq<GridCell>, l: Layout, row: u16, count: u16, blank: GridCell): (t: seq<GridCell>)
    requires LayoutOk(l) && |s| == l.rows as int * l.cols as int && row < l.rows
    ensures |t| == |s|
  {
    FillSpec(CopySpec(s, l.rows, l.cols, Between(row, CopyEnd(row, count, l.region.end)), ClearEnd(row, count, l.region.end)),
             l.rows, l.cols, Between(row, ClearEnd(row, count, l.region.end)), FULL, blank)
  }

  /**
   * After `insert_lines(count)` with the cursor on row `row` inside the
   * region, with `k = min(count, end - row)`: rows `row .. row + k` are blank,
   * the rows below them up to the region's end hold the old rows `k` higher,
   * and every other row is untouched. With the cursor below the region nothing
   * changes.
   */
  lemma {:induction false} InsertLinesCell(s: seq<GridCell>, l: Layout, row: u16, count: u16, blank: GridCell, r: int, c: int)
    requires LayoutOk(l) && |s| == l.rows as int * l.cols as int && row < l.rows && InGrid(l, r, c)
    ensures var k := ClearEnd(row, count, l.region.end) as int - row as int;
      row <= l.region.end ==>
        CellAt(InsertedLines(s, l, row, count, blank), l, r, c) ==
          if row as int <= r < row as int + k then blank
          else if row as int + k <= r < l.region.end as int then CellAt(s, l, r - k, c)
          else CellAt(s, l, r, c)
    ensures l.region.end < row ==> CellAt(InsertedLines(s, l, row, count, blank), l, r, c) == CellAt(s, l, r, c)
  {
    var clearEnd, copyEnd := ClearEnd(row, count, l.region.end), CopyEnd(row, count, l.region.end);
    CopyFitsRows(l.rows, l.cols, row, copyEnd, clearEnd);
    var copied := CopySpec(s, l.rows, l.cols, Between(row, copyEnd), clearEnd);
    FillRegionCell(copied, l.rows, l.cols, Between(row, clearEnd), FULL, blank, r, c);
    CopyRowsCell(s, l.rows, l.cols, Between(row, copyEnd), clearEnd, r, c);
  }

  /** `delete_lines(count)` at cursor row `row`. */
  function DeletedLines(s: seq<GridCell>, l: Layout, row: u16, count: u16, blank: GridCell): (t: seq<GridCell>)
    requires LayoutOk(l) && |s| == l.rows as int * l.cols as int && row < l.rows
    ensures |t| == |s|
  {
    FillSpec(CopySpec(s, l.rows, l.cols, Between(ClearEnd(row, count, l.region.end), l.region.end), row),
             l.rows, l.cols, Between(CopyEnd(row, count, l.region.end), l.region.end), FULL, blank)
  }

  /**
   * After `delete_lines(count)` with the cursor on row `row` inside the
   * region, with `k = min(count, end - row)`: rows `row .. end - k` hold the
   * old rows `k` lower, the last `k` rows of the region are blank, and every
   * other row is untouched. With the cursor below the region nothing changes.
   */
  lemma {:induction false} DeleteLinesCell(s: seq<GridCell>, l: Layout, row: u16, count: u16, blank: GridCell, r: int, c: int)
    requires LayoutOk(l) && |s| == l.rows as int * l.cols as int && row < l.rows && InGrid(l, r, c)
    ensures var k := ClearEnd(row, count, l.region.end) as int - row as int;
      row <= l.region.end ==>
        CellAt(DeletedLines(s, l, row, count, blank), l, r, c) ==
          if l.region.end as int - k <= r < l.region.end as int then blank
          else if row as int <= r < l.region.end as int - k then CellAt(s, l, r + k, c)
          else CellAt(s, l, r, c)
    ensures l.region.end < row ==> CellAt(DeletedLines(s, l, row, count, blank), l, r, c) == CellAt(s, l, r, c)
  {
    var clearEnd, copyEnd := ClearEnd(row, count, l.region.end), CopyEnd(row, count, l.region.end);
    CopyFitsRows(l.rows, l.cols, clearEnd, l.region.end, row);
    var copied := CopySpec(s, l.rows, l.cols, Between(clearEnd, l.region.end), row);
    FillRegionCell(copied, l.rows, l.cols, Between(copyEnd, l.region.end), FULL, blank, r, c);
    CopyRowsCell(s, l.rows, l.cols, Between(clearEnd, l.region.end), row, r, c);
  }

  // ---------------------------------------------------------------- clearing

  /** `row..=row`: the cursor's line. */
  function LineBounds(row: u16): Bounds {
    Bounds(Included(row), Included(row))
  }

  /** The columns `clear_line(region)` passes to `clear_current_line`. */
  function LineColumns(region: ClearRegion, col: u16): Bounds {
    match region
    case ToEnd => Bounds(Included(col), Unbounded)    // col..
    case ToStart => Bounds(Unbounded, Included(col))  // ..=col
    case All => FULL                                  // ..
  }

  /** `clear_line(region)`. */
  function ClearedLine(s: seq<GridCell>, l: Layout, cursor: Position, region: ClearRegion, blank: GridCell): (t: seq<GridCell>)
    requires LayoutOk(l) && cursor.row < l.rows && cursor.col <= l.cols
    ensures |t| == |s|
  {
    FillSpec(s, l.rows, l.cols, LineBounds(cursor.row), LineColumns(region, cursor.col), blank)
  }

  /**
   * `clear_line` blanks the cursor's line from the cursor on (`ToEnd`), up to
   * and including the cursor (`ToStart`) or entirely (`All`), and nothing
   * else; except that `ToStart` with the cursor two columns before the end
   * takes the shortcut of `fill_region` and blanks the last column too.
   */
  lemma {:induction false} ClearLineCell(s: seq<GridCell>, l: Layout, cursor: Position, region: ClearRegion, blank: GridCell, r: int, c: int)
    requires LayoutOk(l) && cursor.row < l.rows && cursor.col <= l.cols
    requires |s| == l.rows as int * l.cols as int && InGrid(l, r, c)
    ensures CellAt(ClearedLine(s, l, cursor, region, blank), l, r, c) ==
      if r == cursor.row as int &&
         (match region
          case ToEnd => cursor.col as int <= c
          case ToStart => c <= cursor.col as int || cursor.col as int + 2 == l.cols as int
          case All => true)
      then blank else CellAt(s, l, r, c)
  {
    FillRegionCell(s, l.rows, l.cols, LineBounds(cursor.row), LineColumns(region, cursor.col), blank, r, c);
  }

  /** `clear_screen(region)`. */
  function ClearedScreen(s: seq<GridCell>, l: Layout, cursor: Position, region: ClearRegion, blank: GridCell): (t: seq<GridCell>)
    requires LayoutOk(l) && cursor.row < l.rows && cursor.col <= l.cols
    ensures |t| == |s|
  {
    match region
    case ToEnd =>
      FillSpec(ClearedLine(s, l, cursor, ToEnd, blank), l.rows, l.cols, Bounds(Included(cursor.row + 1), Unbounded), FULL, blank)
    case ToStart =>
      ClearedLine(FillSpec(s, l.rows, l.cols, Bounds(Unbounded, Excluded(cursor.row)), FULL, blank), l, cursor, ToStart, blank)
    case All =>
      FillSpec(s, l.rows, l.cols, FULL, FULL, blank)
  }

  /**
   * `clear_screen` blanks everything from the cursor to the end of the grid
   * (`ToEnd`), everything from the start of the grid up to and including the
   * cursor (`ToStart`, with the same shortcut as `clear_line`), or the whole
   * grid (`All`), and nothing else.
   */
  lemma {:induction false} ClearScreenCell(s: seq<GridCell>, l: Layout, cursor: Position, region: ClearRegion, blank: GridCell, r: int, c: int)
    requires LayoutOk(l) && cursor.row < l.rows && cursor.col <= l.cols
    requires |s| == l.rows as int * l.cols as int && InGrid(l, r, c)
    ensures CellAt(ClearedScreen(s, l, cursor, region, blank), l, r, c) ==
      if (match region
          case ToEnd => r > cursor.row as int || (r == cursor.row as int && cursor.col as int <= c)
          case ToStart => r < cursor.row as int ||
                          (r == cursor.row as int && (c <= cursor.col as int || cursor.col as int + 2 == l.cols as int))
          case All => true)
      then blank else CellAt(s, l, r, c)
  {
    match region
    case ToEnd =>
      ClearLineCell(s, l, cursor, ToEnd, blank, r, c);
      FillRegionCell(ClearedLine(s, l, cursor, ToEnd, blank), l.rows, l.cols, Bounds(Included(cursor.row + 1), Unbounded), FULL, blank, r, c);
    case ToStart =>
      var above := FillSpec(s, l.rows, l.cols, Bounds(Unbounded, Excluded(cursor.row)), FULL, blank);
      FillRegionCell(s, l.rows, l.cols, Bounds(Unbounded, Excluded(cursor.row)), FULL, blank, r, c);
      ClearLineCell(above, l, cursor, ToStart, blank, r, c);
    case All =>
      FillRegionCell(s, l.rows, l.cols, FULL, FULL, blank, r, c);
  }

  /** `erase(count)`: `clear_current_line(col..col.saturating_add(count))`. */
  function Erased(s: seq<GridCell>, l: Layout, cursor: Position, count: u16, blank: GridCell): (t: seq<GridCell>)
    requires LayoutOk(l) && cursor.row < l.rows && cursor.col <= l.cols
    ensures |t| == |s|
  {
    FillSpec(s, l.rows, l.cols, LineBounds(cursor.row), Between(cursor.col, SaturatingAdd(cursor.col, count)), blank)
  }

  /**
   * `erase(count)` blanks the `count` cells from the cursor on, within the
   * line, and nothing else; except that erasing `cols - 1` cells from column 0
   * takes the shortcut of `fill_region` and blanks the whole line.
   */
  lemma {:induction false} EraseCell(s: seq<GridCell>, l: Layout, cursor: Position, count: u16, blank: GridCell, r: int, c: int)
    requires LayoutOk(l) && cursor.row < l.rows && cursor.col <= l.cols
    requires |s| == l.rows as int * l.cols as int && InGrid(l, r, c)
    ensures CellAt(Erased(s, l, cursor, count, blank), l, r, c) ==
      if r == cursor.row as int &&
         (cursor.col as int <= c < cursor.col as int + count as int || (cursor.col == 0 && count as int + 1 == l.cols as int))
      then blank else CellAt(s, l, r, c)
  {
    FillRegionCell(s, l.rows, l.cols, LineBounds(cursor.row), Between(cursor.col, SaturatingAdd(cursor.col, count)), blank, r, c);
  }

  // ---------------------------------------------------------------- the cursor

  /** `advance_row`: down one row inside the region, or scroll the region up by one at its last row. */
  function AdvanceRowSpec(p: Page, l: Layout, blank: GridCell): (q: Page)
    requires LayoutOk(l) && PageOk(p, l)
    ensures PageOk(q, l)
  {
    if p.cursor.row < SaturatingSub(l.region.end, 1) then Page(p.cells, Position(p.cursor.row + 1, p.cursor.col))
    else Page(ScrolledUp(p.cells, l, 1, blank), p.cursor)
  }

  /** `advance_column`: one column right, up to the pending-wrap column `cols`; from there to column 0 of the next row. */
  function AdvanceColumnSpec(p: Page, l: Layout, blank: GridCell): (q: Page)
    requires LayoutOk(l) && PageOk(p, l)
    ensures PageOk(q, l)
  {
    if p.cursor.col < l.cols then Page(p.cells, Position(p.cursor.row, p.cursor.col + 1))
    else AdvanceRowSpec(Page(p.cells, Position(p.cursor.row, 0)), l, blank)
  }

  /** The wrap at the start of `insert_char`: a cursor at the pending-wrap column goes to the start of the next row first. */
  function Wrapped(p: Page, l: Layout, blank: GridCell): (q: Page)
    requires LayoutOk(l) && PageOk(p, l)
    ensures PageOk(q, l) && q.cursor.col < l.cols
  {
    if p.cursor.col == l.cols then AdvanceRowSpec(Page(p.cells, Position(p.cursor.row, 0)), l, blank) else p
  }

  /** `self.grid[self.cursor] = cell`. */
  function Written(p: Page, l: Layout, cell: GridCell): (q: Page)
    requires LayoutOk(l) && PageOk(p, l) && p.cursor.col < l.cols
    ensures PageOk(q, l)
  {
    OffsetBelow(p.cursor.row as int, p.cursor.col as int, l.rows as int, l.cols as int);
    Page(p.cells[Offset(p.cursor.row as int, p.cursor.col as int, l.cols as int) := cell], p.cursor)
  }

  /** `insert_char`: wrap if the cursor is at the pending-wrap column, write the cell, advance. */
  function InsertCharSpec(p: Page, l: Layout, cell: GridCell, blank: GridCell): (q: Page)
    requires LayoutOk(l) && PageOk(p, l)
    ensures PageOk(q, l)
  {
    AdvanceColumnSpec(Written(Wrapped(p, l, blank), l, cell), l, blank)
  }

  /**
   * `insert_char` writes the cell at the (wrapped) cursor position, changes
   * no other cell, and leaves the cursor one column to the right, which is at
   * most `cols`.
   */
  lemma {:induction false} InsertCharWrites(p: Page, l: Layout, cell: GridCell, blank: GridCell, r: int, c: int)
    requires LayoutOk(l) && PageOk(p, l) && InGrid(l, r, c)
    ensures var w := Wrapped(p, l, blank);
      && InsertCharSpec(p, l, cell, blank).cursor == Position(w.cursor.row, w.cursor.col + 1)
      && CellAt(InsertCharSpec(p, l, cell, blank).cells, l, r, c) ==
           if r == w.cursor.row as int && c == w.cursor.col as int then cell else CellAt(w.cells, l, r, c)
  {
    var w := Wrapped(p, l, blank);
    OffsetBelow(r, c, l.rows as int, l.cols as int);
    OffsetBelow(w.cursor.row as int, w.cursor.col as int, l.rows as int, l.cols as int);
    if Offset(r, c, l.cols as int) == Offset(w.cursor.row as int, w.cursor.col as int, l.cols as int) {
      OffsetUnique(r, c, w.cursor.row as int, w.cursor.col as int, l.cols as int);
    }
  }

  /** Away from the pending-wrap column there is no wrap: the cell goes exactly at the cursor. */
  lemma {:induction false} NoWrapBeforeLastColumn(p: Page, l: Layout, blank: GridCell)
    requires LayoutOk(l) && PageOk(p, l) && p.cursor.col < l.cols
    ensures Wrapped(p, l, blank) == p
  {
  }

  /** `text(text)`: `insert_char` for each character in turn, in the pen's colours and style. */
  function TextSpec(p: Page, l: Layout, text: string, foreground: Color, background: Color, style: Styles): (q: Page)
    requires LayoutOk(l) && PageOk(p, l)
    ensures PageOk(q, l)
    decreases |text|
  {
    if text == [] then p
    else TextSpec(InsertCharSpec(p, l, GridCell(text[0], foreground, background, style), Blank(style)),
                  l, text[1..], foreground, background, style)
  }

  /**
   * Text that fits on the cursor's line is written into consecutive cells of
   * that line, each in the pen's colours and style; the cursor ends just after
   * it and no other cell changes.
   */
  lemma {:induction false} TextOnOneLine(p: Page, l: Layout, text: string, foreground: Color, background: Color, style: Styles, r: int, c: int)
    requires LayoutOk(l) && PageOk(p, l) && InGrid(l, r, c)
    requires p.cursor.col as int + |text| <= l.cols as int
    ensures TextSpec(p, l, text, foreground, background, style).cursor == Position(p.cursor.row, p.cursor.col + |text|)
    ensures CellAt(TextSpec(p, l, text, foreground, background, style).cells, l, r, c) ==
      if r == p.cursor.row as int && p.cursor.col as int <= c < p.cursor.col as int + |text|
      then GridCell(text[c - p.cursor.col as int], foreground, background, style)
      else CellAt(p.cells, l, r, c)
    decreases |text|
  {
    if text != [] {
      var cell := GridCell(text[0], foreground, background, style);
      var q := InsertCharSpec(p, l, cell, Blank(style));
      NoWrapBeforeLastColumn(p, l, Blank(style));
      InsertCharWrites(p, l, cell, Blank(style), r, c);
      TextOnOneLine(q, l, text[1..], foreground, background, style, r, c);
      if r == p.cursor.row as int && p.cursor.col as int < c < p.cursor.col as int + |text| {
        assert text[1..][c - q.cursor.col as int] == text[c - p.cursor.col as int];
      }
    }
  }

  /** The first tab stop after column `col`: the next multiple of 8. */
  function NextTabStop(col: int): int {
    (col / 8 + 1) * 8
  }

  /** The next tab stop is the least multiple of 8 beyond the column, at most 8 columns on. */
  lemma {:induction false} NextTabStopLeast(col: nat, m: int)
    ensures NextTabStop(col) % 8 == 0 && col < NextTabStop(col) <= col + 8
    ensures col < m < NextTabStop(col) ==> m % 8 != 0
  {
  }

  /**
   * `tab`: `advance_column` until the column is a multiple of 8. It stops at
   * the next tab stop if that lies on the line (the pending-wrap column
   * `cols` included), and otherwise wraps to column 0 of the next row.
   */
  function TabSpec(p: Page, l: Layout, blank: GridCell): (q: Page)
    requires LayoutOk(l) && PageOk(p, l)
    ensures PageOk(q, l)
  {
    if NextTabStop(p.cursor.col as int) <= l.cols as int then Page(p.cells, Position(p.cursor.row, NextTabStop(p.cursor.col as int) as u16))
    else AdvanceRowSpec(Page(p.cells, Position(p.cursor.row, 0)), l, blank)
  }

  /** A tab always moves the cursor (at least one step) and always stops at a column that is a multiple of 8. */
  lemma {:induction false} TabStopsOnMultipleOfEight(p: Page, l: Layout, blank: GridCell)
    requires LayoutOk(l) && PageOk(p, l)
    ensures TabSpec(p, l, blank).cursor.col % 8 == 0
    ensures TabSpec(p, l, blank).cursor.col > p.cursor.col || TabSpec(p, l, blank).cursor.col == 0
    ensures TabSpec(p, l, blank).cursor.col > p.cursor.col ==> TabSpec(p, l, blank).cells == p.cells
  {
    NextTabStopLeast(p.cursor.col as int, 0);
  }

  // ---------------------------------------------------------------- cursor moves

  /** `backspace`: one column left, or from column 0 to the last column of the same row. */
  function Backspaced(c: Position, l: Layout): (r: Position)
    requires LayoutOk(l) && c.col <= l.cols
    ensures r.row == c.row && r.col < l.cols
    ensures c.col > 0 ==> r.col as int == c.col as int - 1
    ensures c.col == 0 ==> r.col as int == l.cols as int - 1
  {
    if c.col > 0 then c.(col := c.col - 1) else c.(col := l.cols - 1)
  }

  /**
   * `move_cursor`: up and left stop at 0, down and right stop at the last
   * row and column; the other coordinate is kept.
   */
  function MovedCursor(c: Position, l: Layout, direction: Direction, steps: u16): (r: Position)
    requires LayoutOk(l) && c.row < l.rows && c.col <= l.cols
    ensures r.row < l.rows && r.col <= l.cols
    ensures direction == Up ==> r.col == c.col && r.row as int == if c.row < steps then 0 else c.row as int - steps as int
    ensures direction == Down ==> r.col == c.col && r.row as int == Min(c.row as int + steps as int, l.rows as int - 1)
    ensures direction == Left ==> r.row == c.row && r.col as int == if c.col < steps then 0 else c.col as int - steps as int
    ensures direction == Right ==> r.row == c.row && r.col as int == Min(c.col as int + steps as int, l.cols as int - 1)
  {
    match direction
    case Up => c.(row := SaturatingSub(c.row, steps))
    case Down => c.(row := Min(SaturatingAdd(c.row, steps) as int, l.rows as int - 1) as u16)
    case Left => c.(col := SaturatingSub(c.col, steps))
    case Right => c.(col := Min(SaturatingAdd(c.col, steps) as int, l.cols as int - 1) as u16)
  }

  /** `set_cursor_pos` and `restore_cursor`: row and column clamped independently to the last row and column. */
  function Clamped(row: u16, col: u16, l: Layout): (r: Position)
    requires LayoutOk(l)
    ensures r.row < l.rows && r.col < l.cols
    ensures row < l.rows ==> r.row == row
    ensures l.rows <= row ==> r.row as int == l.rows as int - 1
    ensures col < l.cols ==> r.col == col
    ensures l.cols <= col ==> r.col as int == l.cols as int - 1
  {
    Position(Min(row as int, l.rows as int - 1) as u16, Min(col as int, l.cols as int - 1) as u16)
  }

  /**
   * `virtual_cursor`: where the cursor is drawn. A pending wrap is shown at
   * the start of the next row; past the last row, at the bottom-right cell.
   * It always lies inside the grid.
   */
  function VirtualCursor(c: Position, l: Layout): (r: Position)
    requires LayoutOk(l) && c.row < l.rows && c.col <= l.cols
    ensures r.row < l.rows && r.col < l.cols
    ensures c.col < l.cols ==> r == c
    ensures c.col == l.cols && c.row as int + 1 < l.rows as int ==> r == Position(c.row + 1, 0)
    ensures c.col == l.cols && c.row as int + 1 == l.rows as int ==> r == Position(l.rows - 1, l.cols - 1)
  {
    var p := if c.col >= l.cols then Position(c.row + 1, 0) else c;
    if p.row >= l.rows then Position(l.rows - 1, l.cols - 1) else p
  }

  // ---------------------------------------------------------------- the whole terminal

  /** The behaviour flags, by default: cursor shown, main buffer, no bracketed paste. */
  datatype Behaviours = Behaviours(showCursor: bool, alternateBuffer: bool, bracketedPaste: bool)

  const DEFAULT_BEHAVIOURS: Behaviours := Behaviours(true, false, false)

  /** What `toggle_behaviour` can switch; the application cursor has no flag on the screen. */
  datatype Behaviour = ShowCursor | AlternateBuffer | BracketedPaste | ApplicationCursor

  /** Everything of a `Screen` the commands read or change, except the residual input. */
  datatype Term = Term(
    layout: Layout,
    page: Page,
    alternate: seq<GridCell>,
    saved: Position,
    cursorColor: Color,
    style: Styles,
    foreground: Color,
    background: Color,
    behaviours: Behaviours,
    title: string)

  predicate TermOk(t: Term) {
    LayoutOk(t.layout) && PageOk(t.page, t.layout) && |t.alternate| == |t.page.cells|
  }

  /** `toggle_behaviour`: set the flag; the alternate buffer swaps the two grids, but only when its flag changes. */
  function Toggled(t: Term, behaviour: Behaviour, toggle: Toggle): (r: Term)
    requires TermOk(t)
    ensures TermOk(r) && r.layout == t.layout && r.page.cursor == t.page.cursor
  {
    var on := toggle == Enable;
    match behaviour
    case ShowCursor => t.(behaviours := t.behaviours.(showCursor := on))
    case AlternateBuffer =>
      if on != t.behaviours.alternateBuffer then
        t.(behaviours := t.behaviours.(alternateBuffer := on), page := t.page.(cells := t.alternate), alternate := t.page.cells)
      else t
    case BracketedPaste => t.(behaviours := t.behaviours.(bracketedPaste := on))
    case ApplicationCursor => t
  }

  /** A toggle sets its flag, and repeating a toggle changes nothing. */
  lemma {:induction false} ToggleIdempotent(t: Term, behaviour: Behaviour, toggle: Toggle)
    requires TermOk(t)
    ensures behaviour == ShowCursor ==> Toggled(t, behaviour, toggle).behaviours.showCursor == (toggle == Enable)
    ensures behaviour == AlternateBuffer ==> Toggled(t, behaviour, toggle).behaviours.alternateBuffer == (toggle == Enable)
    ensures behaviour == BracketedPaste ==> Toggled(t, behaviour, toggle).behaviours.bracketedPaste == (toggle == Enable)
    ensures Toggled(Toggled(t, behaviour, toggle), behaviour, toggle) == Toggled(t, behaviour, toggle)
  {
  }

  /**
   * Entering the alternate buffer shows the alternate grid and keeps the main
   * one; leaving it brings the main grid back, and with it the screen as it
   * was.
   */
  lemma {:induction false} AlternateBufferRoundTrip(t: Term)
    requires TermOk(t) && !t.behaviours.alternateBuffer
    ensures Toggled(t, AlternateBuffer, Enable).page.cells == t.alternate
    ensures Toggled(t, AlternateBuffer, Enable).alternate == t.page.cells
    ensures Toggled(Toggled(t, AlternateBuffer, Enable), AlternateBuffer, Disable) == t
  {
  }

  /** The replacement character `invalid_utf8` writes. */
  const REPLACEMENT: string := ['\U{FFFD}']

  /** What one command does to the terminal. `ClearScrollback` is unimplemented in the source and has no meaning here. */
  function Step(t: Term, cmd: Command): (r: Term)
    requires TermOk(t) && cmd != ClearScrollback
    ensures TermOk(r) && r.layout == t.layout
  {
    var blank := Blank(t.style);
    match cmd
    case InvalidControlSequence(_) => t
    case Text(text) => t.(page := TextSpec(t.page, t.layout, text, t.foreground, t.background, t.style))
    case InvalidUtf8(_) => t.(page := TextSpec(t.page, t.layout, REPLACEMENT, t.foreground, t.background, t.style))
    case Bell => t
    case Tab => t.(page := TabSpec(t.page, t.layout, blank))
    case Backspace => t.(page := t.page.(cursor := Backspaced(t.page.cursor, t.layout)))
    case CarriageReturn => t.(page := t.page.(cursor := t.page.cursor.(col := 0)))
    case LineFeed => t.(page := AdvanceRowSpec(t.page, t.layout, blank))
    case MoveCursor(direction, steps) => t.(page := t.page.(cursor := MovedCursor(t.page.cursor, t.layout, direction, steps)))
    case SetCursorPos(row, col) => t.(page := t.page.(cursor := Clamped(row, col, t.layout)))
    case ClearLine(region) => t.(page := t.page.(cells := ClearedLine(t.page.cells, t.layout, t.page.cursor, region, blank)))
    case ClearScreen(region) => t.(page := t.page.(cells := ClearedScreen(t.page.cells, t.layout, t.page.cursor, region, blank)))
    case SetBracketedPaste(toggle) => Toggled(t, BracketedPaste, toggle)
    case SetApplicationCursor(toggle) => Toggled(t, ApplicationCursor, toggle)
    case SetCharacterStyle(style) => t.(style := t.style | style)
    case ResetCharacterStyle(style) => t.(style := t.style & !style)
    case SetForegroundColor(color) => t.(foreground := color)
    case ResetForegroundColor => t.(foreground := DEFAULT_FOREGROUND)
    case SetBackgroundColor(color) => t.(background := color)
    case ResetBackgroundColor => t.(background := DEFAULT_BACKGROUND)
    case SetWindowTitle(title) => t.(title := title)
  }

  /** The commands applied in order. */
  function Run(t: Term, cmds: seq<Command>): (r: Term)
    requires TermOk(t) && ClearScrollback !in cmds
    ensures TermOk(r) && r.layout == t.layout
    decreases |cmds|
  {
    if cmds == [] then t
    else
      assert ClearScrollback !in cmds[..|cmds| - 1];
      Step(Run(t, cmds[..|cmds| - 1]), cmds[|cmds| - 1])
  }

  /** One more command is one more step. */
  lemma {:induction false} RunSnoc(t: Term, cmds: seq<Command>, c: Command)
    requires TermOk(t) && ClearScrollback !in cmds && c != ClearScrollback
    ensures ClearScrollback !in cmds + [c]
    ensures Run(t, cmds + [c]) == Step(Run(t, cmds), c)
  {
    var s := cmds + [c];
    assert s[..|s| - 1] == cmds && s[|s| - 1] == c;
  }

  /** Applying two batches of commands is applying their concatenation. */
  lemma {:induction false} RunAppend(t: Term, a: seq<Command>, b: seq<Command>)
    requires TermOk(t) && ClearScrollback !in a + b
    ensures ClearScrollback !in a && ClearScrollback !in b
    ensures Run(t, a + b) == Run(Run(t, a), b)
    decreases |b|
  {
    assert forall c | c in a :: c in a + b;
    assert forall c | c in b :: c in a + b;
    if b != [] {
      var front, last := b[..|b| - 1], b[|b| - 1];
      assert a + b == (a + front) + [last] && b == front + [last];
      assert forall c | c in front :: c in b;
      RunAppend(t, a, front);
      RunSnoc(t, a + front, last);
      RunSnoc(Run(t, a), front, last);
    } else {
      assert a + b == a;
    }
  }

  /** Styles, colours and pen changes never touch the cells or the cursor. */
  lemma {:induction false} PenCommandsKeepPage(t: Term, cmd: Command)
    requires TermOk(t)
    requires cmd.SetCharacterStyle? || cmd.ResetCharacterStyle? || cmd.SetForegroundColor? || cmd.ResetForegroundColor?
          || cmd.SetBackgroundColor? || cmd.ResetBackgroundColor? || cmd.SetWindowTitle?
    ensures Step(t, cmd).page == t.page && Step(t, cmd).alternate == t.alternate
    ensures cmd.SetCharacterStyle? ==> Step(t, cmd).style & cmd.style == cmd.style
    ensures cmd.ResetCharacterStyle? ==> Step(t, cmd).style & cmd.style == 0
    ensures cmd.SetCharacterStyle? || cmd.ResetCharacterStyle? ==> Step(t, cmd).style & !cmd.style == t.style & !cmd.style
  {
  }
}
