/**
 * `CharacterGrid`: a row-major buffer of `rows * cols` cells. The cell at row
 * `r` and column `c` lives at offset `c + r * cols`. The buffer is filled over
 * rectangles and moved by whole rows with memmove semantics.
 *
 * The contents of the buffer after each operation are given by a function of
 * the contents before it (`FillSpec`, `CopySpec`); the lemmas below state what
 * those functions mean cell by cell.
 */
module Grid {
  import opened Primitives
  import opened Colors
  import opened ControlCode

  datatype Position = Position(row: u16, col: u16)

  datatype GridCell = GridCell(character: char, foreground: Color, background: Color, style: Styles)

  /** `GridCell::empty`: a blank in the default colours with no style. */
  const EMPTY_CELL: GridCell := GridCell(' ', DEFAULT_FOREGROUND, DEFAULT_BACKGROUND, 0)

  /** `n` copies of the empty cell: a freshly allocated buffer. */
  function EmptyCells(n: nat): (s: seq<GridCell>)
    ensures |s| == n && forall i | 0 <= i < n :: s[i] == EMPTY_CELL
  {
    seq(n, _ => EMPTY_CELL)
  }

  // ---------------------------------------------------------------- ranges

  /** `std::ops::Bound<u16>`. */
  datatype Bound = Included(index: u16) | Excluded(index: u16) | Unbounded

  /** A `RangeBounds<u16>` argument: `a..b`, `a..`, `..=b`, `..` and so on. */
  datatype Bounds = Bounds(start: Bound, end: Bound)

  /** `a..b`. */
  function Between(a: u16, b: u16): Bounds { Bounds(Included(a), Excluded(b)) }

  /** `..`. */
  const FULL: Bounds := Bounds(Unbounded, Unbounded)

  /** `std::ops::Range<u16>`: the half-open range `start..end`, possibly empty. */
  datatype Range = Range(start: u16, end: u16)

  /** `RangeBounds::contains`. */
  predicate Contains(b: Bounds, k: int) {
    && (match b.start
        case Included(i) => i <= k
        case Excluded(i) => i < k
        case Unbounded => true)
    && (match b.end
        case Included(i) => k <= i
        case Excluded(i) => k < i
        case Unbounded => true)
  }

  /** `into_exclusive_range` adds one to an excluded start and an included end; that must not overflow. */
  predicate NoOverflow(b: Bounds) {
    && !(b.start.Excluded? && b.start.index == U16_MAX)
    && !(b.end.Included? && b.end.index == U16_MAX)
  }

  /**
   * `into_exclusive_range`: the half-open range of the indices below `max`
   * that the bounds contain, with both ends clamped to `max`.
   */
  function IntoExclusiveRange(b: Bounds, max: u16): (r: Range)
    requires NoOverflow(b)
    ensures r.start <= max && r.end <= max
    ensures forall k: int :: r.start <= k < r.end <==> Contains(b, k) && 0 <= k < max
  {
    var start: u16 := match b.start
      case Included(i) => i
      case Excluded(i) => i + 1
      case Unbounded => 0;
    var end: u16 := match b.end
      case Included(i) => i + 1
      case Excluded(i) => i
      case Unbounded => max;
    Range(Min(start, max) as u16, Min(end, max) as u16)
  }

  // ---------------------------------------------------------------- addressing

  /** The buffer offset of row `row`, column `col`. */
  function Offset(row: int, col: int, cols: int): int {
    col + row * cols
  }

  lemma {:induction false} MulMono(a: int, b: int, c: nat)
    requires a <= b
    ensures a * c <= b * c
  {
    assert b * c - a * c == (b - a) * c;
  }

  lemma {:induction false} NextRow(r: int, cols: int)
    ensures (r + 1) * cols == r * cols + cols
  {
  }

  /** A cell of a row before row `r` lies before the start of row `r`. */
  lemma {:induction false} BeforeRow(row: nat, col: nat, r: int, cols: nat)
    requires col < cols && row < r
    ensures Offset(row, col, cols) < r * cols
  {
    MulMono(row + 1, r, cols);
    NextRow(row, cols);
  }

  /** A cell of row `r` or later lies at or after the start of row `r`. */
  lemma {:induction false} FromRow(row: nat, col: nat, r: int, cols: nat)
    requires r <= row
    ensures r * cols <= Offset(row, col, cols)
  {
    MulMono(r, row, cols);
  }

  /** Indexing is in bounds: a position inside the grid addresses a cell of the buffer. */
  lemma {:induction false} OffsetBelow(row: nat, col: nat, rows: nat, cols: nat)
    requires row < rows && col < cols
    ensures 0 <= Offset(row, col, cols) < rows * cols
  {
    BeforeRow(row, col, rows, cols);
  }

  /** Columns `cs..ce` of a row of the grid form a slice of its cells. */
  lemma {:induction false} RowSpanInGrid(row: nat, cs: nat, ce: nat, rows: nat, cols: nat)
    requires row < rows && cs <= ce <= cols
    ensures 0 <= Offset(row, cs, cols) <= Offset(row, ce, cols) <= rows * cols
  {
    NextRow(row, cols);
    MulMono(row + 1, rows, cols);
  }

  /** Indexing is one-to-one: two positions inside the grid address the same cell only if they are equal. */
  lemma {:induction false} OffsetUnique(row: nat, col: nat, row': nat, col': nat, cols: nat)
    requires col < cols && col' < cols
    requires Offset(row, col, cols) == Offset(row', col', cols)
    ensures row == row' && col == col'
  {
    if row < row' {
      BeforeRow(row, col, row', cols);
      FromRow(row', col', row', cols);
    } else if row' < row {
      BeforeRow(row', col', row, cols);
      FromRow(row, col, row, cols);
    }
  }

  /** The cells of rows `a..b` are exactly the offsets `a * cols .. b * cols`. */
  lemma {:induction false} RowBlock(row: nat, col: nat, a: int, b: int, cols: nat)
    requires col < cols
    ensures a * cols <= Offset(row, col, cols) < b * cols <==> a <= row < b
  {
    if row < a {
      BeforeRow(row, col, a, cols);
    } else if b <= row {
      FromRow(row, col, b, cols);
    } else {
      FromRow(row, col, a, cols);
      BeforeRow(row, col, b, cols);
    }
  }

  /** The cells of columns `cs..ce` of row `r` are exactly the offsets `Offset(r, cs) .. Offset(r, ce)`. */
  lemma {:induction false} RowSpan(row: nat, col: nat, r: int, cs: int, ce: int, cols: nat)
    requires col < cols && 0 <= cs && ce <= cols
    ensures Offset(r, cs, cols) <= Offset(row, col, cols) < Offset(r, ce, cols) <==> row == r && cs <= col < ce
  {
    NextRow(r, cols);
    if row < r {
      BeforeRow(row, col, r, cols);
    } else if r < row {
      FromRow(row, col, r + 1, cols);
    }
  }

  // ---------------------------------------------------------------- buffer contents

  /** `s` with the offsets `lo..hi` set to `cell`. */
  function Span(s: seq<GridCell>, lo: int, hi: int, cell: GridCell): (t: seq<GridCell>)
    ensures |t| == |s|
  {
    seq(|s|, i requires 0 <= i < |s| => if lo <= i < hi then cell else s[i])
  }

  /** `s` with columns `cs..ce` of the rows `rs..r` set to `cell`, one row after the other. */
  function FillRows(s: seq<GridCell>, cols: int, rs: int, r: int, cs: int, ce: int, cell: GridCell): (t: seq<GridCell>)
    ensures |t| == |s|
    decreases r - rs
  {
    if r <= rs then s
    else Span(FillRows(s, cols, rs, r - 1, cs, ce, cell), Offset(r - 1, cs, cols), Offset(r - 1, ce, cols), cell)
  }

  /** The shortcut of `fill_region`: it fires when the columns are `0..max_col`. */
  predicate FastPath(columns: Range, cols: u16) {
    columns.start == 0 && columns.end as int == cols as int - 1
  }

  /** The contents after `fill_region(row_bounds, col_bounds, cell)`. */
  function FillSpec(s: seq<GridCell>, rows: u16, cols: u16, rowB: Bounds, colB: Bounds, cell: GridCell): (t: seq<GridCell>)
    requires NoOverflow(rowB) && NoOverflow(colB)
    ensures |t| == |s|
  {
    if FastPath(IntoExclusiveRange(colB, cols), cols) then
      Span(s, IntoExclusiveRange(rowB, rows).start as int * cols as int, IntoExclusiveRange(rowB, rows).end as int * cols as int, cell)
    else
      FillRows(s, cols as int, IntoExclusiveRange(rowB, rows).start as int, IntoExclusiveRange(rowB, rows).end as int,
               IntoExclusiveRange(colB, cols).start as int, IntoExclusiveRange(colB, cols).end as int, cell)
  }

  /** What `fill_region` demands of its arguments: `max_col` must exist and every slice it fills must be well formed. */
  predicate FillFits(rows: u16, cols: u16, rowB: Bounds, colB: Bounds)
    requires NoOverflow(rowB) && NoOverflow(colB)
  {
    && cols >= 1
    && (if FastPath(IntoExclusiveRange(colB, cols), cols)
        then IntoExclusiveRange(rowB, rows).start <= IntoExclusiveRange(rowB, rows).end
        else IntoExclusiveRange(rowB, rows).start < IntoExclusiveRange(rowB, rows).end ==>
               IntoExclusiveRange(colB, cols).start <= IntoExclusiveRange(colB, cols).end)
  }

  /** `s` after `copy_within(from..to, dst)`: offsets `dst..dst + (to - from)` take the old values of `from..to`. */
  function Moved(s: seq<GridCell>, from: int, to: int, dst: int): (t: seq<GridCell>)
    ensures |t| == |s|
  {
    seq(|s|, i requires 0 <= i < |s| =>
      if dst <= i < dst + (to - from) && 0 <= from + (i - dst) < |s| then s[from + (i - dst)] else s[i])
  }

  /** The contents after `copy_rows(row_bounds, dst_row)`. */
  function CopySpec(s: seq<GridCell>, rows: u16, cols: u16, rowB: Bounds, dst: u16): (t: seq<GridCell>)
    requires NoOverflow(rowB)
    ensures |t| == |s|
  {
    Moved(s, IntoExclusiveRange(rowB, rows).start as int * cols as int,
          IntoExclusiveRange(rowB, rows).end as int * cols as int, dst as int * cols as int)
  }

  /** What `copy_within` demands: a well-formed source slice whose copy fits at the destination. */
  predicate CopyFits(rows: u16, cols: u16, rowB: Bounds, dst: u16)
    requires NoOverflow(rowB)
  {
    var from := IntoExclusiveRange(rowB, rows).start as int * cols as int;
    var to := IntoExclusiveRange(rowB, rows).end as int * cols as int;
    from <= to && dst as int * cols as int + (to - from) <= rows as int * cols as int
  }

  // ---------------------------------------------------------------- contents, cell by cell

  lemma {:induction false} FillRowsCell(s: seq<GridCell>, cols: nat, rs: int, r: int, cs: int, ce: int, cell: GridCell, row: nat, col: nat)
    requires col < cols && 0 <= cs && ce <= cols
    requires Offset(row, col, cols) < |s|
    ensures FillRows(s, cols, rs, r, cs, ce, cell)[Offset(row, col, cols)] ==
      if rs <= row < r && cs <= col < ce then cell else s[Offset(row, col, cols)]
    decreases r - rs
  {
    if rs < r {
      FillRowsCell(s, cols, rs, r - 1, cs, ce, cell, row, col);
      RowSpan(row, col, r - 1, cs, ce, cols);
    }
  }

  lemma {:induction false} SpanCell(s: seq<GridCell>, a: int, b: int, cols: nat, cell: GridCell, row: nat, col: nat)
    requires col < cols && Offset(row, col, cols) < |s|
    ensures Span(s, a * cols, b * cols, cell)[Offset(row, col, cols)] ==
      if a <= row < b then cell else s[Offset(row, col, cols)]
  {
    RowBlock(row, col, a, b, cols);
  }

  /**
   * `fill_region` sets exactly the cells whose row the row bounds contain and
   * whose column the column bounds contain, and no other; on the shortcut it
   * sets every column of those rows.
   */
  lemma {:induction false} FillRegionCell(s: seq<GridCell>, rows: u16, cols: u16, rowB: Bounds, colB: Bounds, cell: GridCell, row: nat, col: nat)
    requires NoOverflow(rowB) && NoOverflow(colB)
    requires |s| == rows as int * cols as int && row < rows as int && col < cols as int
    ensures 0 <= Offset(row, col, cols as int) < |s|
    ensures FillSpec(s, rows, cols, rowB, colB, cell)[Offset(row, col, cols as int)] ==
      if Contains(rowB, row) && (Contains(colB, col) || FastPath(IntoExclusiveRange(colB, cols), cols))
      then cell else s[Offset(row, col, cols as int)]
  {
    OffsetBelow(row, col, rows as int, cols as int);
    var rr := IntoExclusiveRange(rowB, rows);
    var cr := IntoExclusiveRange(colB, cols);
    if FastPath(cr, cols) {
      SpanCell(s, rr.start as int, rr.end as int, cols as int, cell, row, col);
    } else {
      FillRowsCell(s, cols as int, rr.start as int, rr.end as int, cr.start as int, cr.end as int, cell, row, col);
    }
  }

  /**
   * The shortcut compares the column end with `max_col` (`cols - 1`) rather
   * than `cols`: a request for columns `..=cols-2` also overwrites the last
   * column, which it does not contain.
   */
  lemma {:induction false} FillShortcutTakesLastColumn(s: seq<GridCell>, rows: u16, cols: u16, rowB: Bounds, cell: GridCell, row: nat)
    requires NoOverflow(rowB) && 2 <= cols
    requires |s| == rows as int * cols as int && row < rows as int && Contains(rowB, row)
    ensures !Contains(Bounds(Unbounded, Included(cols - 2)), cols as int - 1)
    ensures 0 <= Offset(row, cols as int - 1, cols as int) < |s|
    ensures FillSpec(s, rows, cols, rowB, Bounds(Unbounded, Included(cols - 2)), cell)[Offset(row, cols as int - 1, cols as int)] == cell
  {
    var colB := Bounds(Unbounded, Included(cols - 2));
    var cr := IntoExclusiveRange(colB, cols);
    assert cr.start == 0 && cr.end as int == cols as int - 1;
    FillRegionCell(s, rows, cols, rowB, colB, cell, row, cols as int - 1);
  }

  lemma {:induction false} ShiftRows(a: int, d: int, row: int, col: int, c: int)
    ensures a * c + (Offset(row, col, c) - d * c) == Offset(a + (row - d), col, c)
  {
    assert (a + (row - d)) * c == a * c + row * c - d * c;
  }

  lemma {:induction false} BlockLength(a: int, b: int, d: int, c: int)
    ensures d * c + (b * c - a * c) == (d + (b - a)) * c
  {
  }

  /** A positive width preserves the order of row numbers. */
  lemma {:induction false} RowOrder(a: int, b: int, c: nat)
    requires 1 <= c && a * c <= b * c
    ensures a <= b
  {
    if b < a {
      MulMono(b + 1, a, c);
      NextRow(b, c);
    }
  }

  lemma {:induction false} MovedCell(s: seq<GridCell>, a: nat, b: nat, d: nat, c: nat, row: nat, col: nat)
    requires a <= b && col < c && b * c <= |s| && Offset(row, col, c) < |s|
    ensures d <= row < d + (b - a) ==> 0 <= Offset(a + (row - d), col, c) < |s|
    ensures Moved(s, a * c, b * c, d * c)[Offset(row, col, c)] ==
      if d <= row < d + (b - a) then s[Offset(a + (row - d), col, c)] else s[Offset(row, col, c)]
  {
    BlockLength(a, b, d, c);
    RowBlock(row, col, d, d + (b - a), c);
    if d <= row < d + (b - a) {
      ShiftRows(a, d, row, col, c);
      BeforeRow(a + (row - d), col, b, c);
    }
  }

  /**
   * `copy_rows(a..b, dst)`: rows `dst .. dst + (b - a)` take the old contents
   * of rows `a..b`, column by column, whatever the overlap; every other row
   * keeps its contents.
   */
  lemma {:induction false} CopyRowsCell(s: seq<GridCell>, rows: u16, cols: u16, rowB: Bounds, dst: u16, row: nat, col: nat)
    requires NoOverflow(rowB) && CopyFits(rows, cols, rowB, dst)
    requires |s| == rows as int * cols as int && row < rows as int && col < cols as int
    ensures 0 <= Offset(row, col, cols as int) < |s|
    ensures IntoExclusiveRange(rowB, rows).start <= IntoExclusiveRange(rowB, rows).end
    ensures dst <= row < dst as int + (IntoExclusiveRange(rowB, rows).end - IntoExclusiveRange(rowB, rows).start) ==>
      0 <= Offset(IntoExclusiveRange(rowB, rows).start as int + (row - dst as int), col, cols as int) < |s|
    ensures CopySpec(s, rows, cols, rowB, dst)[Offset(row, col, cols as int)] ==
      if dst <= row < dst as int + (IntoExclusiveRange(rowB, rows).end - IntoExclusiveRange(rowB, rows).start)
      then s[Offset(IntoExclusiveRange(rowB, rows).start as int + (row - dst as int), col, cols as int)]
      else s[Offset(row, col, cols as int)]
  {
    var rr := IntoExclusiveRange(rowB, rows);
    OffsetBelow(row, col, rows as int, cols as int);
    RowOrder(rr.start as int, rr.end as int, cols as int);
    MulMono(rr.end as int, rows as int, cols as int);
    MovedCell(s, rr.start as int, rr.end as int, dst as int, cols as int, row, col);
  }

  /** A copy of rows `a..b` inside the grid to a destination where it fits meets the demands of `copy_within`. */
  lemma {:induction false} CopyFitsRows(rows: u16, cols: u16, a: u16, b: u16, dst: u16)
    requires a <= b <= rows && dst as int + (b - a) <= rows as int
    ensures NoOverflow(Between(a, b)) && IntoExclusiveRange(Between(a, b), rows) == Range(a, b)
    ensures CopyFits(rows, cols, Between(a, b), dst)
  {
    MulMono(a as int, b as int, cols as int);
    BlockLength(a as int, b as int, dst as int, cols as int);
    MulMono(dst as int + (b - a), rows as int, cols as int);
  }

  // ---------------------------------------------------------------- the grid

  class CharacterGrid {
    const rows: u16
    const cols: u16
    const cells: array<GridCell>

    ghost predicate Valid() {
      cells.Length == rows as int * cols as int
    }

    /** `CharacterGrid::new`: `rows * cols` empty cells. */
    constructor(rows: u16, cols: u16)
      ensures this.rows == rows && this.cols == cols && Valid() && fresh(cells)
      ensures cells[..] == EmptyCells(rows as int * cols as int)
    {
      this.rows := rows;
      this.cols := cols;
      cells := new GridCell[rows as int * cols as int](_ => EMPTY_CELL);
    }

    /** `size`: `[rows, cols]`, the dimensions of the buffer. */
    function Size(): (size: (u16, u16))
      requires Valid()
      ensures size.0 as int * size.1 as int == cells.Length
    {
      (rows, cols)
    }

    /** `max_row`: the last row; it does not exist for an empty grid (the subtraction underflows). */
    function MaxRow(): (r: u16)
      requires rows >= 1
      ensures r < rows && r as int + 1 == rows as int
    {
      rows - 1
    }

    /** `max_col`: the last column. */
    function MaxCol(): (c: u16)
      requires cols >= 1
      ensures c < cols && c as int + 1 == cols as int
    {
      cols - 1
    }

    /** `Index<Position>`: the assertion demands a position inside the grid. */
    function Get(pos: Position): GridCell
      reads cells
      requires Valid() && pos.row < rows && pos.col < cols
    {
      OffsetBelow(pos.row as int, pos.col as int, rows as int, cols as int);
      cells[Offset(pos.row as int, pos.col as int, cols as int)]
    }

    /** `IndexMut<Position>` followed by a store: exactly the addressed cell changes. */
    method Set(pos: Position, cell: GridCell)
      requires Valid() && pos.row < rows && pos.col < cols
      modifies cells
      ensures 0 <= Offset(pos.row as int, pos.col as int, cols as int) < cells.Length
      ensures cells[..] == old(cells[..])[Offset(pos.row as int, pos.col as int, cols as int) := cell]
      ensures Get(pos) == cell
      ensures forall q: Position | q.row < rows && q.col < cols && q != pos :: Get(q) == old(Get(q))
    {
      OffsetBelow(pos.row as int, pos.col as int, rows as int, cols as int);
      var at := Offset(pos.row as int, pos.col as int, cols as int);
      forall q: Position | q.row < rows && q.col < cols && q != pos
        ensures Offset(q.row as int, q.col as int, cols as int) != at
      {
        if Offset(q.row as int, q.col as int, cols as int) == at {
          OffsetUnique(q.row as int, q.col as int, pos.row as int, pos.col as int, cols as int);
        }
      }
      cells[at] := cell;
    }

    /** `<[GridCell]>::fill` on the slice `lo..hi`. */
    method FillSlice(lo: int, hi: int, cell: GridCell)
      requires 0 <= lo <= hi <= cells.Length
      modifies cells
      ensures cells[..] == Span(old(cells[..]), lo, hi, cell)
    {
      forall i | lo <= i < hi {
        cells[i] := cell;
      }
      assert cells[..] == Span(old(cells[..]), lo, hi, cell);
    }

    /** `fill_region`: the shortcut fills whole rows at once, otherwise each row's column span in turn. */
    method FillRegion(rowB: Bounds, colB: Bounds, cell: GridCell)
      requires Valid() && NoOverflow(rowB) && NoOverflow(colB) && FillFits(rows, cols, rowB, colB)
      modifies cells
      ensures cells[..] == FillSpec(old(cells[..]), rows, cols, rowB, colB, cell)
    {
      var rr := IntoExclusiveRange(rowB, rows);
      var cr := IntoExclusiveRange(colB, cols);
      if cr.start == 0 && cr.end == MaxCol() {
        FillRowBlock(rr.start, rr.end, cell);
      } else {
        FillColumns(rr.start, rr.end, cr.start, cr.end, cell);
      }
    }

    /** The shortcut of `fill_region`: the slice of rows `rs..re`, all columns. */
    method FillRowBlock(rs: u16, re: u16, cell: GridCell)
      requires Valid() && rs <= re <= rows
      modifies cells
      ensures cells[..] == Span(old(cells[..]), rs as int * cols as int, re as int * cols as int, cell)
    {
      MulMono(rs as int, re as int, cols as int);
      MulMono(re as int, rows as int, cols as int);
      FillSlice(rs as int * cols as int, re as int * cols as int, cell);
    }

    /** The row loop of `fill_region`: columns `cs..ce` of each row `rs..re`. */
    method FillColumns(rs: u16, re: u16, cs: u16, ce: u16, cell: GridCell)
      requires Valid() && re <= rows && ce <= cols && (rs < re ==> cs <= ce)
      modifies cells
      ensures cells[..] == FillRows(old(cells[..]), cols as int, rs as int, re as int, cs as int, ce as int, cell)
    {
      var row := rs;
      while row < re
        invariant rs <= row && (rs <= re ==> row <= re)
        invariant re < rs ==> row == rs
        invariant cells[..] == FillRows(old(cells[..]), cols as int, rs as int, row as int, cs as int, ce as int, cell)
      {
        RowSpanInGrid(row as int, cs as int, ce as int, rows as int, cols as int);
        FillSlice(Offset(row as int, cs as int, cols as int), Offset(row as int, ce as int, cols as int), cell);
        row := row + 1;
      }
    }

    /** `<[GridCell]>::copy_within(from..to, dst)`: a memmove, reading every source cell before any is overwritten. */
    method CopyWithin(from: int, to: int, dst: int)
      requires 0 <= from <= to <= cells.Length && 0 <= dst && dst + (to - from) <= cells.Length
      modifies cells
      ensures cells[..] == Moved(old(cells[..]), from, to, dst)
    {
      var src := cells[..];
      forall i | dst <= i < dst + (to - from) {
        cells[i] := src[from + (i - dst)];
      }
      assert cells[..] == Moved(src, from, to, dst);
    }

    /** `copy_rows(row_bounds, dst_row)`. */
    method CopyRows(rowB: Bounds, dst: u16)
      requires Valid() && NoOverflow(rowB) && CopyFits(rows, cols, rowB, dst)
      modifies cells
      ensures cells[..] == CopySpec(old(cells[..]), rows, cols, rowB, dst)
    {
      var rr := IntoExclusiveRange(rowB, rows);
      CopyWithin(rr.start as int * cols as int, rr.end as int * cols as int, dst as int * cols as int);
    }
  }
}
