/**
 * The terminal screen of `src/screen.rs`: a cursor, the pen (style and
 * colours), the behaviour flags, a main and an alternate `CharacterGrid`, and
 * the bytes of a control sequence cut off at the end of the last read.
 *
 * Every method that text output or a command can reach is proved against the
 * functions of `ScreenSpec`: `State()` after the call is the spec function of
 * `State()` before it.
 */
module Screens {
  import opened Primitives
  import opened Colors
  import opened ControlCode
  import opened Grid
  import opened ScreenSpec

  const DEFAULT_TITLE: string := "spotty"

  class Screen {
    var title: string
    var grid: CharacterGrid
    var alternateGrid: CharacterGrid
    var cursor: Position
    var savedCursor: Position
    var cursorColor: Color
    var style: Styles
    var foreground: Color
    var background: Color
    var scrollingRegion: Range
    var behaviours: Behaviours
    /** Output from the shell that could not be parsed yet because more bytes are needed. */
    var residualInput: seq<byte>

    /**
     * Two grids of the same size with separate buffers, a size for which no
     * `+ 1` on a row or column overflows, the scrolling region clamped to the
     * grid, and the cursor on a row of the grid with its column at most `cols`.
     */
    ghost predicate Valid()
      reads this
    {
      && grid.Valid() && alternateGrid.Valid() && grid.cells != alternateGrid.cells
      && alternateGrid.rows == grid.rows && alternateGrid.cols == grid.cols
      && LayoutOk(Shape()) && cursor.row < grid.rows && cursor.col <= grid.cols
    }

    function Shape(): Layout
      reads this
    {
      Layout(grid.rows, grid.cols, scrollingRegion)
    }

    function View(): Page
      reads this, grid.cells
    {
      Page(grid.cells[..], cursor)
    }

    function State(): Term
      reads this, grid.cells, alternateGrid.cells
    {
      Term(Shape(), View(), alternateGrid.cells[..], savedCursor, cursorColor, style, foreground, background, behaviours, title)
    }

    /** The grids are the same objects and the residual input is untouched. */
    twostate predicate Kept()
      reads this
    {
      grid == old(grid) && alternateGrid == old(alternateGrid) && residualInput == old(residualInput)
    }

    /** `Screen::new`: blank grids, cursor at the origin, the whole grid as scrolling region, default pen and flags. */
    constructor(rows: u16, cols: u16)
      requires 1 <= rows < U16_MAX && 1 <= cols < U16_MAX
      ensures Valid() && fresh(grid) && fresh(grid.cells) && fresh(alternateGrid) && fresh(alternateGrid.cells)
      ensures State() == Term(Layout(rows, cols, Range(0, rows)), Page(EmptyCells(rows as int * cols as int), Position(0, 0)),
                              EmptyCells(rows as int * cols as int), Position(0, 0), DEFAULT_CURSOR, 0,
                              DEFAULT_FOREGROUND, DEFAULT_BACKGROUND, DEFAULT_BEHAVIOURS, DEFAULT_TITLE)
      ensures residualInput == []
    {
      title := DEFAULT_TITLE;
      grid := new CharacterGrid(rows, cols);
      alternateGrid := new CharacterGrid(rows, cols);
      cursor := Position(0, 0);
      savedCursor := Position(0, 0);
      cursorColor := DEFAULT_CURSOR;
      style := 0;
      foreground := DEFAULT_FOREGROUND;
      background := DEFAULT_BACKGROUND;
      scrollingRegion := Range(0, rows);
      behaviours := DEFAULT_BEHAVIOURS;
      residualInput := [];
      new;
    }

    /** `resize_grid`: two new blank grids, the cursor at the origin, the whole grid as scrolling region; pen and flags are kept. */
    method ResizeGrid(rows: u16, cols: u16)
      requires Valid() && 1 <= rows < U16_MAX && 1 <= cols < U16_MAX
      modifies this
      ensures Valid() && fresh(grid) && fresh(grid.cells) && fresh(alternateGrid) && fresh(alternateGrid.cells)
      ensures State() == Term(Layout(rows, cols, Range(0, rows)), Page(EmptyCells(rows as int * cols as int), Position(0, 0)),
                              EmptyCells(rows as int * cols as int), old(savedCursor), old(cursorColor), old(style),
                              old(foreground), old(background), old(behaviours), old(title))
      ensures residualInput == old(residualInput)
    {
      grid := new CharacterGrid(rows, cols);
      alternateGrid := new CharacterGrid(rows, cols);
      cursor := Position(0, 0);
      scrollingRegion := Range(0, rows);
    }

    /**
     * `process_input`: the stored residual bytes and the new input are parsed
     * together, every command is applied in order, and the tail the parser
     * could not finish becomes the new residual. `clear_scrollback` is not
     * implemented in the source (it panics), so the input must not ask for it.
     */
    method ProcessInput(input: seq<byte>)
      requires Valid() && ClearScrollback !in Parse(residualInput + input).cmds
      modifies this, grid.cells, alternateGrid.cells
      ensures Valid() && {grid.cells, alternateGrid.cells} == {old(grid.cells), old(alternateGrid.cells)}
      ensures State() == Run(old(State()), Parse(old(residualInput) + input).cmds)
      ensures residualInput == Parse(old(residualInput) + input).tail
    {
      var bytes := residualInput + input;
      residualInput := [];
      var decoded := Parse(bytes);
      ApplyAll(decoded.cmds);
      residualInput := residualInput + decoded.tail;
    }

    /** The loop of `process_input` over the decoded commands, applying each in order. */
    method ApplyAll(cmds: seq<Command>)
      requires Valid() && ClearScrollback !in cmds
      modifies this, grid.cells, alternateGrid.cells
      ensures Valid() && {grid.cells, alternateGrid.cells} == {old(grid.cells), old(alternateGrid.cells)}
      ensures State() == Run(old(State()), cmds)
      ensures residualInput == old(residualInput)
    {
      ghost var start := State();
      ghost var main, other := grid.cells, alternateGrid.cells;
      var i := 0;
      while i < |cmds|
        invariant 0 <= i <= |cmds| && Valid()
        invariant {grid.cells, alternateGrid.cells} == {main, other}
        invariant ClearScrollback !in cmds[..i]
        invariant State() == Run(start, cmds[..i])
        invariant residualInput == old(residualInput)
      {
        assert cmds[i] in cmds;
        Apply(cmds[i]);
        RunSnoc(start, cmds[..i], cmds[i]);
        assert cmds[..i] + [cmds[i]] == cmds[..i + 1];
        i := i + 1;
      }
      assert cmds[..i] == cmds;
    }

    /** The dispatch of one decoded command to the method that carries it out. */
    method Apply(cmd: Command)
      requires Valid() && cmd != ClearScrollback
      modifies this, grid.cells, alternateGrid.cells
      ensures Valid() && residualInput == old(residualInput)
      ensures {grid.cells, alternateGrid.cells} == {old(grid.cells), old(alternateGrid.cells)}
      ensures State() == Step(old(State()), cmd)
    {
      if cmd.Text? || cmd.InvalidUtf8? {
        ApplyText(cmd);
      } else if cmd.Tab? || cmd.Backspace? || cmd.CarriageReturn? || cmd.LineFeed? || cmd.MoveCursor? || cmd.SetCursorPos? {
        ApplyCursor(cmd);
      } else if cmd.ClearLine? || cmd.ClearScreen? {
        ApplyClear(cmd);
      } else if cmd.SetBracketedPaste? {
        ToggleBehaviour(BracketedPaste, cmd.toggle);
      } else if cmd.SetApplicationCursor? {
        ToggleBehaviour(ApplicationCursor, cmd.toggle);
      } else if cmd.InvalidControlSequence? || cmd.Bell? || cmd.SetCharacterStyle? || cmd.ResetCharacterStyle? {
        ApplyStyle(cmd);
      } else if cmd.SetWindowTitle? {
        SetWindowTitle(cmd.title);
      } else {
        ApplyColor(cmd);
      }
    }

    method ApplyText(cmd: Command)
      requires Valid() && (cmd.Text? || cmd.InvalidUtf8?)
      modifies this, grid.cells
      ensures Valid() && Kept()
      ensures State() == Step(old(State()), cmd)
    {
      match cmd
      case Text(text) => Text(text);
      case InvalidUtf8(bytes) => InvalidUtf8(bytes);
    }

    method ApplyCursor(cmd: Command)
      requires Valid()
      requires cmd.Tab? || cmd.Backspace? || cmd.CarriageReturn? || cmd.LineFeed? || cmd.MoveCursor? || cmd.SetCursorPos?
      modifies this, grid.cells
      ensures Valid() && Kept()
      ensures State() == Step(old(State()), cmd)
    {
      match cmd
      case Tab => Tab();
      case Backspace => Backspace();
      case CarriageReturn => CarriageReturn();
      case LineFeed => LineFeed();
      case MoveCursor(direction, steps) => MoveCursor(direction, steps);
      case SetCursorPos(row, col) => SetCursorPos(row, col);
    }

    method ApplyClear(cmd: Command)
      requires Valid() && (cmd.ClearLine? || cmd.ClearScreen?)
      modifies this, grid.cells
      ensures Valid() && Kept()
      ensures State() == Step(old(State()), cmd)
    {
      match cmd
      case ClearLine(region) => ClearLine(region);
      case ClearScreen(region) => ClearScreen(region);
    }

    /** Commands that change only the style, or nothing at all. */
    method ApplyStyle(cmd: Command)
      requires Valid()
      requires cmd.InvalidControlSequence? || cmd.Bell? || cmd.SetCharacterStyle? || cmd.ResetCharacterStyle?
      modifies this
      ensures Valid() && Kept()
      ensures State() == Step(old(State()), cmd)
    {
      match cmd
      case InvalidControlSequence(_) =>
      case Bell =>
      case SetCharacterStyle(s) => SetCharacterStyle(s);
      case ResetCharacterStyle(s) => ResetCharacterStyle(s);
    }

    /** Commands that change only a colour. */
    method ApplyColor(cmd: Command)
      requires Valid()
      requires cmd.SetForegroundColor? || cmd.ResetForegroundColor? || cmd.SetBackgroundColor? || cmd.ResetBackgroundColor?
      modifies this
      ensures Valid() && Kept()
      ensures State() == Step(old(State()), cmd)
    {
      match cmd
      case SetForegroundColor(color) => SetForegroundColor(color);
      case ResetForegroundColor => ResetForegroundColor();
      case SetBackgroundColor(color) => SetBackgroundColor(color);
      case ResetBackgroundColor => ResetBackgroundColor();
    }

    // ---------------------------------------------------------------- text

    /** `text`: `insert_char` for each character in turn. */
    method Text(text: string)
      requires Valid()
      modifies this, grid.cells
      ensures Valid() && Kept()
      ensures State() == old(State()).(page := TextSpec(old(View()), Shape(), text, foreground, background, style))
    {
      ghost var start := View();
      var i := 0;
      while i < |text|
        invariant 0 <= i <= |text| && Valid() && Kept()
        invariant State() == old(State()).(page := View())
        invariant TextSpec(View(), Shape(), text[i..], foreground, background, style) ==
                  TextSpec(start, Shape(), text, foreground, background, style)
      {
        assert text[i..][1..] == text[i + 1..];
        InsertChar(text[i]);
        i := i + 1;
      }
    }

    /** `invalid_utf8`: the bytes are replaced by one U+FFFD. */
    method InvalidUtf8(bytes: seq<byte>)
      requires Valid()
      modifies this, grid.cells
      ensures Valid() && Kept()
      ensures State() == old(State()).(page := TextSpec(old(View()), Shape(), REPLACEMENT, foreground, background, style))
    {
      Text(REPLACEMENT);
    }

    /** `insert_char`: wrap from the pending-wrap column, write the cell in the current pen, advance. */
    method InsertChar(ch: char)
      requires Valid()
      modifies this, grid.cells
      ensures Valid() && Kept()
      ensures State() == old(State()).(page := InsertCharSpec(old(View()), Shape(), GridCell(ch, foreground, background, style), Blank(style)))
    {
      if cursor.col == grid.cols {
        cursor := cursor.(col := 0);
        AdvanceRow();
      }
      grid.Set(cursor, GridCell(ch, foreground, background, style));
      AdvanceColumn();
    }

    /** `advance_column`. */
    method AdvanceColumn()
      requires Valid()
      modifies this, grid.cells
      ensures Valid() && Kept()
      ensures State() == old(State()).(page := AdvanceColumnSpec(old(View()), Shape(), Blank(style)))
    {
      if cursor.col < grid.cols {
        cursor := cursor.(col := cursor.col + 1);
      } else {
        cursor := cursor.(col := 0);
        AdvanceRow();
      }
    }

    /** `advance_row`. */
    method AdvanceRow()
      requires Valid()
      modifies this, grid.cells
      ensures Valid() && Kept()
      ensures State() == old(State()).(page := AdvanceRowSpec(old(View()), Shape(), Blank(style)))
    {
      if cursor.row < SaturatingSub(scrollingRegion.end, 1) {
        cursor := cursor.(row := cursor.row + 1);
      } else {
        ScrollUp(1);
      }
    }

    // ---------------------------------------------------------------- cursor movement

    /** `tab`: advance at least once, then until the column is a multiple of 8. */
    method Tab()
      requires Valid()
      modifies this, grid.cells
      ensures Valid() && Kept()
      ensures State() == old(State()).(page := TabSpec(old(View()), Shape(), Blank(style)))
    {
      ghost var start := View();
      NextTabStopLeast(start.cursor.col as int, 0);
      AdvanceColumn();
      while cursor.col % 8 != 0
        invariant Valid() && Kept() && State() == old(State()).(page := View())
        invariant cursor.col == 0 ==> View() == TabSpec(start, Shape(), Blank(style))
        invariant cursor.col != 0 ==> View().cells == start.cells && cursor.row == start.cursor.row
        invariant cursor.col != 0 ==> start.cursor.col < cursor.col && cursor.col as int <= NextTabStop(start.cursor.col as int)
        decreases if cursor.col == 0 then 0 else grid.cols as int + 1 - cursor.col as int
      {
        NextTabStopLeast(start.cursor.col as int, cursor.col as int);
        AdvanceColumn();
      }
      if cursor.col != 0 {
        NextTabStopLeast(start.cursor.col as int, cursor.col as int);
      }
    }

    /** `backspace`. */
    method Backspace()
      requires Valid()
      modifies this
      ensures Valid() && Kept()
      ensures State() == old(State()).(page := old(View()).(cursor := Backspaced(old(cursor), Shape())))
    {
      if cursor.col > 0 {
        cursor := cursor.(col := cursor.col - 1);
      } else {
        cursor := cursor.(col := grid.cols - 1);
      }
    }

    /** `carriage_return`: back to column 0 of the same row. */
    method CarriageReturn()
      requires Valid()
      modifies this
      ensures Valid() && Kept()
      ensures State() == old(State()).(page := old(View()).(cursor := Position(old(cursor).row, 0)))
    {
      cursor := cursor.(col := 0);
    }

    /** `line_feed`: `advance_row`; the column is kept. */
    method LineFeed()
      requires Valid()
      modifies this, grid.cells
      ensures Valid() && Kept()
      ensures State() == old(State()).(page := AdvanceRowSpec(old(View()), Shape(), Blank(style)))
    {
      AdvanceRow();
    }

    /** `reverse_line_feed`: column 0, then up one row, or scroll the region down by one at its first row. */
    method ReverseLineFeed()
      requires Valid()
      modifies this, grid.cells
      ensures Valid() && Kept()
      ensures old(cursor.row) > scrollingRegion.start ==>
        State() == old(State()).(page := Page(old(grid.cells[..]), Position(old(cursor.row) - 1, 0)))
      ensures old(cursor.row) <= scrollingRegion.start ==>
        State() == old(State()).(page := Page(ScrolledDown(old(grid.cells[..]), Shape(), 1, Blank(style)), Position(old(cursor.row), 0)))
    {
      cursor := cursor.(col := 0);
      if cursor.row > scrollingRegion.start {
        cursor := cursor.(row := cursor.row - 1);
      } else {
        ScrollDown(1);
      }
    }

    /** `move_cursor`. */
    method MoveCursor(direction: Direction, steps: u16)
      requires Valid()
      modifies this
      ensures Valid() && Kept()
      ensures State() == old(State()).(page := old(View()).(cursor := MovedCursor(old(cursor), Shape(), direction, steps)))
    {
      match direction
      case Up => cursor := cursor.(row := SaturatingSub(cursor.row, steps));
      case Down => cursor := cursor.(row := Min(SaturatingAdd(cursor.row, steps) as int, grid.MaxRow() as int) as u16);
      case Left => cursor := cursor.(col := SaturatingSub(cursor.col, steps));
      case Right => cursor := cursor.(col := Min(SaturatingAdd(cursor.col, steps) as int, grid.MaxCol() as int) as u16);
    }

    /** `set_cursor_pos`: `set_cursor_row` then `set_cursor_col`. */
    method SetCursorPos(row: u16, col: u16)
      requires Valid()
      modifies this
      ensures Valid() && Kept()
      ensures State() == old(State()).(page := old(View()).(cursor := Clamped(row, col, Shape())))
    {
      SetCursorRow(row);
      SetCursorCol(col);
    }

    /** `set_cursor_row`: the row clamped to the last row; the column is kept. */
    method SetCursorRow(row: u16)
      requires Valid()
      modifies this
      ensures Valid() && Kept()
      ensures State() == old(State()).(page := old(View()).(cursor := old(cursor).(row := Clamped(row, 0, Shape()).row)))
    {
      cursor := cursor.(row := Min(row as int, grid.MaxRow() as int) as u16);
    }

    /** `set_cursor_col`: the column clamped to the last column; the row is kept. */
    method SetCursorCol(col: u16)
      requires Valid()
      modifies this
      ensures Valid() && Kept()
      ensures State() == old(State()).(page := old(View()).(cursor := old(cursor).(col := Clamped(0, col, Shape()).col)))
    {
      cursor := cursor.(col := Min(col as int, grid.MaxCol() as int) as u16);
    }

    /** `save_cursor`. */
    method SaveCursor()
      requires Valid()
      modifies this
      ensures Valid() && Kept()
      ensures State() == old(State()).(saved := old(cursor))
    {
      savedCursor := cursor;
    }

    /** `restore_cursor`: the saved position, clamped to the grid, which may have been resized since. */
    method RestoreCursor()
      requires Valid()
      modifies this
      ensures Valid() && Kept()
      ensures State() == old(State()).(page := old(View()).(cursor := Clamped(savedCursor.row, savedCursor.col, Shape())))
    {
      cursor := Position(Min(savedCursor.row as int, grid.MaxRow() as int) as u16, Min(savedCursor.col as int, grid.MaxCol() as int) as u16);
    }

    /** `set_cursor_color`. */
    method SetCursorColor(color: Color)
      requires Valid()
      modifies this
      ensures Valid() && Kept()
      ensures State() == old(State()).(cursorColor := color)
    {
      cursorColor := color;
    }

    /** `reset_cursor_color`. */
    method ResetCursorColor()
      requires Valid()
      modifies this
      ensures Valid() && Kept()
      ensures State() == old(State()).(cursorColor := DEFAULT_CURSOR)
    {
      cursorColor := DEFAULT_CURSOR;
    }

    /** `set_scrolling_region`: both ends clamped to the number of rows. */
    method SetScrollingRegion(rows: Range)
      requires Valid()
      modifies this
      ensures Valid() && Kept()
      ensures State() == old(State()).(layout := old(Shape()).(region := Range(Min(rows.start as int, grid.rows as int) as u16,
                                                                                Min(rows.end as int, grid.rows as int) as u16)))
      ensures scrollingRegion.start <= grid.rows && scrollingRegion.end <= grid.rows
    {
      scrollingRegion := Range(Min(rows.start as int, grid.rows as int) as u16, Min(rows.end as int, grid.rows as int) as u16);
    }

    // ---------------------------------------------------------------- scrolling

    /** `scroll_up`. */
    method ScrollUp(count: u16)
      requires Valid() && scrollingRegion.start as int + count as int <= U16_MAX as int
      modifies grid.cells
      ensures Valid()
      ensures State() == old(State()).(page := Page(ScrolledUp(old(grid.cells[..]), Shape(), count, Blank(style)), cursor))
    {
      var start, end := scrollingRegion.start, scrollingRegion.end;
      if start + count > end {
        return;
      }
      CopyFitsRows(grid.rows, grid.cols, start + count, end, start);
      grid.CopyRows(Between(start + count, end), start);
      ClearRegion(Between(end - count, end), FULL);
    }

    /** `scroll_down`, copying to row `count` as written. */
    method ScrollDown(count: u16)
      requires Valid() && ScrollDownFits(Shape(), count)
      modifies grid.cells
      ensures Valid()
      ensures State() == old(State()).(page := Page(ScrolledDown(old(grid.cells[..]), Shape(), count, Blank(style)), cursor))
    {
      var start, copyEnd := scrollingRegion.start, SaturatingSub(scrollingRegion.end, count);
      if start > copyEnd {
        return;
      }
      CopyFitsRows(grid.rows, grid.cols, start, copyEnd, count);
      grid.CopyRows(Between(start, copyEnd), count);
      ClearRegion(Between(start, count), FULL);
    }

    /** `insert_lines`. */
    method InsertLines(count: u16)
      requires Valid()
      modifies grid.cells
      ensures Valid()
      ensures State() == old(State()).(page := Page(InsertedLines(old(grid.cells[..]), Shape(), cursor.row, count, Blank(style)), cursor))
    {
      var clearEnd := ClearEnd(cursor.row, count, scrollingRegion.end);
      var rowsBelow := scrollingRegion.end - clearEnd;
      var copyEnd := cursor.row + rowsBelow;
      assert copyEnd == CopyEnd(cursor.row, count, scrollingRegion.end);
      CopyFitsRows(grid.rows, grid.cols, cursor.row, copyEnd, clearEnd);
      grid.CopyRows(Between(cursor.row, copyEnd), clearEnd);
      ClearRegion(Between(cursor.row, clearEnd), FULL);
    }

    /** `delete_lines`. */
    method DeleteLines(count: u16)
      requires Valid()
      modifies grid.cells
      ensures Valid()
      ensures State() == old(State()).(page := Page(DeletedLines(old(grid.cells[..]), Shape(), cursor.row, count, Blank(style)), cursor))
    {
      var clearEnd := ClearEnd(cursor.row, count, scrollingRegion.end);
      CopyFitsRows(grid.rows, grid.cols, clearEnd, scrollingRegion.end, cursor.row);
      grid.CopyRows(Between(clearEnd, scrollingRegion.end), cursor.row);
      var rowsBelow := scrollingRegion.end - clearEnd;
      var copyEnd := cursor.row + rowsBelow;
      assert copyEnd == CopyEnd(cursor.row, count, scrollingRegion.end);
      ClearRegion(Between(copyEnd, scrollingRegion.end), FULL);
    }

    // ---------------------------------------------------------------- clearing

    /** `clear_line`. */
    method ClearLine(region: ClearRegion)
      requires Valid()
      modifies grid.cells
      ensures Valid()
      ensures State() == old(State()).(page := Page(ClearedLine(old(grid.cells[..]), Shape(), cursor, region, Blank(style)), cursor))
    {
      match region
      case ToEnd => ClearCurrentLine(Bounds(Included(cursor.col), Unbounded));
      case ToStart => ClearCurrentLine(Bounds(Unbounded, Included(cursor.col)));
      case All => ClearCurrentLine(FULL);
    }

    /** `clear_screen`. */
    method ClearScreen(region: ClearRegion)
      requires Valid()
      modifies grid.cells
      ensures Valid()
      ensures State() == old(State()).(page := Page(ClearedScreen(old(grid.cells[..]), Shape(), cursor, region, Blank(style)), cursor))
    {
      match region
      case ToEnd =>
        ClearCurrentLine(Bounds(Included(cursor.col), Unbounded));
        ClearRegion(Bounds(Included(cursor.row + 1), Unbounded), FULL);
      case ToStart =>
        ClearRegion(Bounds(Unbounded, Excluded(cursor.row)), FULL);
        ClearCurrentLine(Bounds(Unbounded, Included(cursor.col)));
      case All =>
        ClearRegion(FULL, FULL);
    }

    /** `erase`: the `count` cells from the cursor on. */
    method Erase(count: u16)
      requires Valid()
      modifies grid.cells
      ensures Valid()
      ensures State() == old(State()).(page := Page(Erased(old(grid.cells[..]), Shape(), cursor, count, Blank(style)), cursor))
    {
      ClearCurrentLine(Between(cursor.col, SaturatingAdd(cursor.col, count)));
    }

    /** `clear_current_line`: `clear_region` on the cursor's row. */
    method ClearCurrentLine(columns: Bounds)
      requires Valid() && NoOverflow(columns)
      requires var cr := IntoExclusiveRange(columns, grid.cols); cr.start <= cr.end
      modifies grid.cells
      ensures Valid()
      ensures grid.cells[..] == FillSpec(old(grid.cells[..]), grid.rows, grid.cols, LineBounds(cursor.row), columns, Blank(style))
    {
      ClearRegion(LineBounds(cursor.row), columns);
    }

    /** `clear_region`: `fill_region` with the empty cell of the current style. */
    method ClearRegion(rows: Bounds, columns: Bounds)
      requires Valid() && NoOverflow(rows) && NoOverflow(columns) && FillFits(grid.rows, grid.cols, rows, columns)
      modifies grid.cells
      ensures Valid()
      ensures grid.cells[..] == FillSpec(old(grid.cells[..]), grid.rows, grid.cols, rows, columns, Blank(style))
    {
      grid.FillRegion(rows, columns, Blank(style));
    }

    // ---------------------------------------------------------------- pen, title and behaviours

    /** `set_character_style`: the styles are added to the current ones. */
    method SetCharacterStyle(s: Styles)
      requires Valid()
      modifies this
      ensures Valid() && Kept()
      ensures State() == old(State()).(style := old(style) | s)
    {
      style := style | s;
    }

    /** `reset_character_style`: the styles are removed from the current ones. */
    method ResetCharacterStyle(s: Styles)
      requires Valid()
      modifies this
      ensures Valid() && Kept()
      ensures State() == old(State()).(style := old(style) & !s)
    {
      style := style & !s;
    }

    method SetForegroundColor(color: Color)
      requires Valid()
      modifies this
      ensures Valid() && Kept()
      ensures State() == old(State()).(foreground := color)
    {
      foreground := color;
    }

    method ResetForegroundColor()
      requires Valid()
      modifies this
      ensures Valid() && Kept()
      ensures State() == old(State()).(foreground := DEFAULT_FOREGROUND)
    {
      foreground := DEFAULT_FOREGROUND;
    }

    method SetBackgroundColor(color: Color)
      requires Valid()
      modifies this
      ensures Valid() && Kept()
      ensures State() == old(State()).(background := color)
    {
      background := color;
    }

    method ResetBackgroundColor()
      requires Valid()
      modifies this
      ensures Valid() && Kept()
      ensures State() == old(State()).(background := DEFAULT_BACKGROUND)
    {
      background := DEFAULT_BACKGROUND;
    }

    method SetWindowTitle(text: string)
      requires Valid()
      modifies this
      ensures Valid() && Kept()
      ensures State() == old(State()).(title := text)
    {
      title := text;
    }

    /** `toggle_behaviour`: the alternate buffer swaps the grid objects, and only when its flag changes. */
    method ToggleBehaviour(behaviour: Behaviour, toggle: Toggle)
      requires Valid()
      modifies this
      ensures Valid() && residualInput == old(residualInput)
      ensures {grid.cells, alternateGrid.cells} == {old(grid.cells), old(alternateGrid.cells)}
      ensures State() == Toggled(old(State()), behaviour, toggle)
    {
      var on := toggle == Enable;
      match behaviour
      case ShowCursor => behaviours := behaviours.(showCursor := on);
      case AlternateBuffer =>
        if on != behaviours.alternateBuffer {
          behaviours := behaviours.(alternateBuffer := on);
          grid, alternateGrid := alternateGrid, grid;
        }
      case BracketedPaste => behaviours := behaviours.(bracketedPaste := on);
      case ApplicationCursor =>
    }
  }
}
