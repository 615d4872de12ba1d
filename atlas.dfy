/**
 * The texture atlas of `src/render/texture_atlas.rs`: a square of `size` rows,
 * each keeping an ordered list of free column ranges. `reserve` looks for the
 * lowest band of rows in which some column interval is free in every row,
 * takes the shortest such interval and carves it out of each row of the band.
 */
module Atlas {
  import opened Primitives
  import opened FreeRanges

  // ---------------------------------------------------------------- rows

  /** Every range of the row ends inside the atlas. */
  predicate Bounded(row: seq<FreeRange>, size: int) {
    forall i | 0 <= i < |row| :: row[i].end as int <= size
  }

  /** The invariant of one row: ordered, non-overlapping, inside the atlas. */
  predicate RowOk(row: seq<FreeRange>, size: int) {
    Ordered(row) && Bounded(row, size)
  }

  /** The rows of a fresh atlas: every row has the single free range `0..size`. */
  function FullRows(size: u16): (rows: seq<seq<FreeRange>>)
    ensures |rows| == size as int
    ensures forall y | 0 <= y < |rows| :: rows[y] == [FreeRange(0, size)]
  {
    seq(size as int, _ => [FreeRange(0, size)])
  }

  /** In a fresh atlas every column of every row is free, and the rows satisfy the invariant. */
  lemma {:induction false} FullRowsFree(size: u16, y: nat, k: int)
    requires y < size as int
    ensures RowOk(FullRows(size)[y], size as int)
    ensures Free(FullRows(size)[y], k) <==> 0 <= k < size as int
  {
    var row := FullRows(size)[y];
    if 0 <= k < size as int {
      assert Contains(row[0], k);
    }
  }

  /** Column interval `x..x+w` can be carved from the row: `x` is in a range that reaches at least to `x + w`. */
  ghost predicate Reservable(row: seq<FreeRange>, x: int, w: int) {
    exists i | 0 <= i < |row| :: Contains(row[i], x) && x + w <= row[i].end as int
  }

  // ---------------------------------------------------------------- choosing columns

  /** The number of columns of a range. */
  function Width(r: FreeRange): int {
    r.end as int - r.start as int
  }

  /** `range.len() >= width`, for a range whose start is not after its end. */
  predicate Wide(r: FreeRange, w: int) {
    Width(r) >= w
  }

  /** `Vec::retain(|range| range.len() >= width)`: the wide ranges, in their order. */
  function Retain(s: seq<FreeRange>, w: int): (t: seq<FreeRange>)
    ensures |t| <= |s|
    ensures forall i | 0 <= i < |t| :: t[i] in s && Wide(t[i], w)
    ensures forall i | 0 <= i < |s| && Wide(s[i], w) :: s[i] in t
  {
    if s == [] then []
    else if Wide(s[0], w) then [s[0]] + Retain(s[1..], w)
    else Retain(s[1..], w)
  }

  /** Dropping ranges from an ordered list keeps it ordered. */
  lemma {:induction false} RetainOrdered(s: seq<FreeRange>, w: int)
    requires Ordered(s)
    ensures Ordered(Retain(s, w))
    decreases |s|
  {
    if s != [] {
      OrderedTail(s);
      RetainOrdered(s[1..], w);
      var rest := Retain(s[1..], w);
      if Wide(s[0], w) {
        forall i | 0 <= i < |rest| ensures s[0].end <= rest[i].start {
          var j :| 0 <= j < |s[1..]| && s[1..][j] == rest[i];
          assert s[j + 1] == rest[i];
        }
        OrderedCons(s[0], rest);
      }
    }
  }

  /** A range at least `w` wide inside a range of the list is inside a range that `Retain` keeps. */
  lemma {:induction false} RetainKeepsWithin(r: FreeRange, s: seq<FreeRange>, w: int)
    requires Within(r, s) && Width(r) >= w
    ensures Within(r, Retain(s, w))
  {
    var i :| 0 <= i < |s| && s[i].start <= r.start && r.end <= s[i].end;
    var t := Retain(s, w);
    var j :| 0 <= j < |t| && t[j] == s[i];
  }

  /**
   * `filter(|range| range.len() >= width).min_by_key(|range| range.len())`,
   * as the position of the range it yields: the narrowest range at least `w`
   * wide, the first one among equals.
   */
  function ShortestFit(s: seq<FreeRange>, w: int): (r: Option<nat>)
    ensures r.None? <==> forall i | 0 <= i < |s| :: !Wide(s[i], w)
    ensures r.Some? ==> r.value < |s| && Wide(s[r.value], w)
    ensures r.Some? ==> forall i | 0 <= i < |s| && Wide(s[i], w) :: Width(s[r.value]) <= Width(s[i])
    ensures r.Some? ==> forall i | 0 <= i < r.value && Wide(s[i], w) :: Width(s[r.value]) < Width(s[i])
    decreases |s|
  {
    if s == [] then None
    else
      var rest := ShortestFit(s[1..], w);
      assert forall i | 1 <= i < |s| :: s[i] == s[1..][i - 1];
      if rest.Some? && (!Wide(s[0], w) || Width(s[rest.value + 1]) < Width(s[0])) then Some(rest.value + 1)
      else if Wide(s[0], w) then Some(0)
      else None
  }

  /**
   * The candidate columns of the band of rows `y..end` as `reserve` computes
   * them: starting from `cols`, each row intersects them with its free list
   * and drops the ranges narrower than `w`; an empty list stops the scan.
   */
  function Candidates(rows: seq<seq<FreeRange>>, y: nat, end: nat, cols: seq<FreeRange>, w: int): seq<FreeRange>
    requires end <= |rows|
    decreases end - y
  {
    if y >= end then cols
    else
      var next := Retain(Intersect(cols, rows[y]), w);
      if next == [] then next else Candidates(rows, y + 1, end, next, w)
  }

  /** Within a range that lies within some range of `t` lies within `t`. */
  lemma {:induction false} WithinTrans(r: FreeRange, s: seq<FreeRange>, t: seq<FreeRange>)
    requires Within(r, s) && forall i | 0 <= i < |s| :: Within(s[i], t)
    ensures Within(r, t)
  {
    var i :| 0 <= i < |s| && s[i].start <= r.start && r.end <= s[i].end;
    assert Within(s[i], t);
    var j :| 0 <= j < |t| && t[j].start <= s[i].start && s[i].end <= t[j].end;
  }

  /** One row of the band: what is left is ordered, at least `w` wide and inside both lists. */
  lemma {:induction false} NarrowStep(cols: seq<FreeRange>, row: seq<FreeRange>, w: int)
    requires Ordered(cols) && Ordered(row)
    ensures var next := Retain(Intersect(cols, row), w);
      && Ordered(next)
      && forall i | 0 <= i < |next| :: Within(next[i], cols) && Within(next[i], row) && Wide(next[i], w)
  {
    var inter := Intersect(cols, row);
    var next := Retain(inter, w);
    IntersectCorrect(cols, row);
    RetainOrdered(inter, w);
    forall i | 0 <= i < |next| ensures Within(next[i], cols) && Within(next[i], row) {
      var j :| 0 <= j < |inter| && inter[j] == next[i];
    }
  }

  /** The candidates are ordered, at least `w` wide once a row was scanned, and each lies inside one range of `cols`. */
  lemma {:induction false} CandidatesSound(rows: seq<seq<FreeRange>>, y: nat, end: nat, cols: seq<FreeRange>, w: int)
    requires end <= |rows| && Ordered(cols)
    requires forall yy | y <= yy < end :: Ordered(rows[yy])
    ensures var c := Candidates(rows, y, end, cols, w);
      && Ordered(c)
      && (forall i | 0 <= i < |c| :: Within(c[i], cols))
      && (y < end ==> forall i | 0 <= i < |c| :: Wide(c[i], w))
    decreases end - y
  {
    var c := Candidates(rows, y, end, cols, w);
    if y >= end {
      forall i | 0 <= i < |c| ensures Within(c[i], cols) {
        assert cols[i].start <= c[i].start;
      }
    } else {
      var next := Retain(Intersect(cols, rows[y]), w);
      assert Ordered(next) && forall i | 0 <= i < |next| :: Within(next[i], cols) && Wide(next[i], w) by {
        NarrowStep(cols, rows[y], w);
      }
      if next != [] {
        assert c == Candidates(rows, y + 1, end, next, w);
        CandidatesSound(rows, y + 1, end, next, w);
        forall i | 0 <= i < |c| ensures Within(c[i], cols) {
          WithinTrans(c[i], next, cols);
        }
        if y + 1 == end {
          assert c == next;
        }
      }
    }
  }

  /** Every candidate range lies inside one free range of each row of the band. */
  lemma {:induction false} CandidatesInBand(rows: seq<seq<FreeRange>>, y: nat, end: nat, cols: seq<FreeRange>, w: int)
    requires end <= |rows| && Ordered(cols)
    requires forall yy | y <= yy < end :: Ordered(rows[yy])
    ensures var c := Candidates(rows, y, end, cols, w);
      forall i, yy | 0 <= i < |c| && y <= yy < end :: Within(c[i], rows[yy])
    decreases end - y
  {
    var c := Candidates(rows, y, end, cols, w);
    if y < end {
      var next := Retain(Intersect(cols, rows[y]), w);
      assert Ordered(next) && forall i | 0 <= i < |next| :: Within(next[i], rows[y]) by {
        NarrowStep(cols, rows[y], w);
      }
      if next != [] {
        assert c == Candidates(rows, y + 1, end, next, w);
        CandidatesInBand(rows, y + 1, end, next, w);
        CandidatesSound(rows, y + 1, end, next, w);
        forall i, yy | 0 <= i < |c| && y <= yy < end ensures Within(c[i], rows[yy]) {
          if yy == y {
            WithinTrans(c[i], next, rows[y]);
          }
        }
      }
    }
  }

  /** A non-empty range at least `w` wide that fits in `cols` and in every row of the band survives as a candidate. */
  lemma {:induction false} CandidatesComplete(rows: seq<seq<FreeRange>>, y: nat, end: nat, cols: seq<FreeRange>, w: int, r: FreeRange)
    requires end <= |rows| && Ordered(cols)
    requires forall yy | y <= yy < end :: Ordered(rows[yy])
    requires r.start < r.end && Width(r) >= w
    requires Within(r, cols) && forall yy | y <= yy < end :: Within(r, rows[yy])
    ensures Within(r, Candidates(rows, y, end, cols, w))
    decreases end - y
  {
    if y < end {
      var inter := Intersect(cols, rows[y]);
      var next := Retain(inter, w);
      assert Ordered(next) by {
        NarrowStep(cols, rows[y], w);
      }
      assert Within(r, next) by {
        IntersectKeeps(r, cols, rows[y]);
        RetainKeepsWithin(r, inter, w);
      }
      assert next != [];
      CandidatesComplete(rows, y + 1, end, next, w, r);
      assert Candidates(rows, y, end, cols, w) == Candidates(rows, y + 1, end, next, w);
    }
  }

  /** The band `y..y+h` of `reserve`, starting from the whole width. */
  function BandCandidates(rows: seq<seq<FreeRange>>, size: u16, y: nat, h: nat, w: int): seq<FreeRange>
    requires y + h <= |rows|
  {
    Candidates(rows, y, y + h, [FreeRange(0, size)], w)
  }

  /**
   * The placement `reserve(w, h)` returns, scanning `y` upward over
   * `0..size.saturating_sub(h)` (so the band `size - h .. size` is never
   * tried): the start of the shortest candidate range of the first band that
   * has one.
   */
  function FirstFit(rows: seq<seq<FreeRange>>, size: u16, w: int, h: u16, y: nat): Option<(u16, u16)>
    requires |rows| == size as int
    decreases size as int - y
  {
    if y >= SaturatingSub(size, h) as int then None
    else
      var c := BandCandidates(rows, size, y, h as nat, w);
      match ShortestFit(c, w)
      case Some(i) => Some((c[i].start, y as u16))
      case None => FirstFit(rows, size, w, h, y + 1)
  }

  /** Every row satisfies the invariant. */
  ghost predicate RowsOk(rows: seq<seq<FreeRange>>, size: u16) {
    |rows| == size as int && forall y | 0 <= y < |rows| :: RowOk(rows[y], size as int)
  }

  /** Every column of a reservable interval is free. */
  lemma {:induction false} ReservableFree(row: seq<FreeRange>, x: int, w: int, k: int)
    requires Reservable(row, x, w) && x <= k < x + w
    ensures Free(row, k)
  {
    var j :| 0 <= j < |row| && Contains(row[j], x) && x + w <= row[j].end as int;
    assert Contains(row[j], k);
  }

  /** The start of the shortest candidate range of a band can carve `w` columns from every row of the band. */
  lemma {:induction false} BandSound(rows: seq<seq<FreeRange>>, size: u16, w: int, h: nat, y: nat)
    requires RowsOk(rows, size) && y + h < size as int
    requires ShortestFit(BandCandidates(rows, size, y, h, w), w).Some?
    ensures var c := BandCandidates(rows, size, y, h, w);
      var x := c[ShortestFit(c, w).value].start as int;
      && x + w <= size as int
      && forall yy | y <= yy < y + h :: Reservable(rows[yy], x, w)
  {
    var c := BandCandidates(rows, size, y, h, w);
    var i := ShortestFit(c, w).value;
    var r := c[i];
    var full := [FreeRange(0, size)];
    assert Within(r, full) && Wide(r, w) && r.start < r.end by {
      CandidatesSound(rows, y, y + h, full, w);
    }
    assert c == Candidates(rows, y, y + h, full, w);
    CandidatesInBand(rows, y, y + h, full, w);
    forall yy | y <= yy < y + h ensures Reservable(rows[yy], r.start as int, w) {
      assert Within(c[i], rows[yy]);
      WithinReservable(r, rows[yy], w);
    }
  }

  /** A range inside a free range of `row` and at least `w` wide can carve `w` columns from its start. */
  lemma {:induction false} WithinReservable(r: FreeRange, row: seq<FreeRange>, w: int)
    requires Within(r, row) && r.start < r.end && Width(r) >= w
    ensures Reservable(row, r.start as int, w)
  {
    var j :| 0 <= j < |row| && row[j].start <= r.start && r.end <= row[j].end;
    assert Contains(row[j], r.start as int);
  }

  /**
   * A placement `(x, y)` that `reserve` finds lies in the atlas, with its band
   * below row `size - h`, and columns `x..x+w` can be carved from every row of
   * the band: they were free there.
   */
  lemma {:induction false} FirstFitSound(rows: seq<seq<FreeRange>>, size: u16, w: int, h: u16, y: nat)
    requires RowsOk(rows, size)
    requires FirstFit(rows, size, w, h, y).Some?
    ensures var (x, y') := FirstFit(rows, size, w, h, y).value;
      && y <= y' as int && y' as int + h as int < size as int && x as int + w <= size as int
      && forall yy | y' as int <= yy < y' as int + h as int :: Reservable(rows[yy], x as int, w)
    decreases size as int - y
  {
    if ShortestFit(BandCandidates(rows, size, y, h as nat, w), w).Some? {
      BandSound(rows, size, w, h as nat, y);
    } else {
      FirstFitSound(rows, size, w, h, y + 1);
    }
  }

  /** A band in which some interval `x..x+w` (`w > 0`) can be carved from every row has a candidate. */
  lemma {:induction false} BandComplete(rows: seq<seq<FreeRange>>, size: u16, w: int, h: nat, y: nat, x: nat)
    requires RowsOk(rows, size) && w >= 1
    requires y + h <= size as int && x + w <= size as int
    requires forall yy | y <= yy < y + h :: Reservable(rows[yy], x, w)
    ensures ShortestFit(BandCandidates(rows, size, y, h, w), w).Some?
  {
    var r := FreeRange(x as u16, (x + w) as u16);
    var full := [FreeRange(0, size)];
    assert Within(r, full) by {
      assert full[0].start <= r.start && r.end <= full[0].end;
    }
    forall yy | y <= yy < y + h ensures Within(r, rows[yy]) {
      var j :| 0 <= j < |rows[yy]| && Contains(rows[yy][j], x) && x + w <= rows[yy][j].end as int;
      assert rows[yy][j].start <= r.start && r.end <= rows[yy][j].end;
    }
    CandidatesComplete(rows, y, y + h, full, w, r);
    var c := BandCandidates(rows, size, y, h, w);
    var i :| 0 <= i < |c| && c[i].start <= r.start && r.end <= c[i].end;
    assert Wide(c[i], w);
  }

  /**
   * `reserve` takes the lowest band that has room: when some interval
   * `x..x+w` (`w > 0`) can be carved from every row of the band at `y'`, a
   * band no higher than `y'` is found.
   */
  lemma {:induction false} FirstFitComplete(rows: seq<seq<FreeRange>>, size: u16, w: int, h: u16, y: nat, y': nat, x: nat)
    requires RowsOk(rows, size) && w >= 1
    requires y <= y' < SaturatingSub(size, h) as int && x + w <= size as int
    requires forall yy | y' <= yy < y' + h as int :: Reservable(rows[yy], x, w)
    ensures FirstFit(rows, size, w, h, y).Some?
    ensures y <= FirstFit(rows, size, w, h, y).value.1 as int <= y'
    decreases y' - y
  {
    if y == y' {
      BandComplete(rows, size, w, h as nat, y, x);
    } else if ShortestFit(BandCandidates(rows, size, y, h as nat, w), w).None? {
      FirstFitComplete(rows, size, w, h, y + 1, y', x);
    }
  }

  // ---------------------------------------------------------------- carving

  /** The position of the first range containing column `x`, as the loop over `ranges` finds it. */
  function FirstContaining(row: seq<FreeRange>, x: int): (r: Option<nat>)
    ensures r.Some? ==> r.value < |row| && Contains(row[r.value], x) &&
                        forall j | 0 <= j < r.value :: !Contains(row[j], x)
    ensures r.None? ==> forall j | 0 <= j < |row| :: !Contains(row[j], x)
    decreases |row|
  {
    if row == [] then None
    else if Contains(row[0], x) then Some(0)
    else match FirstContaining(row[1..], x)
      case None => None
      case Some(i) => Some(i + 1)
  }

  /** `rest.split(x + width).unwrap()` cannot panic: the range holding `x` reaches to `x + w`. */
  predicate CarveOk(row: seq<FreeRange>, x: u16, w: int) {
    w >= 0 && (FirstContaining(row, x as int).Some? ==> x as int + w <= row[FirstContaining(row, x as int).value].end as int)
  }

  /** `row[..i] + parts + row[i+1..]`: the range at `i` replaced by `parts`. */
  function Replace(row: seq<FreeRange>, i: nat, parts: seq<FreeRange>): (t: seq<FreeRange>)
    requires i < |row|
    ensures |t| == |row| - 1 + |parts|
  {
    row[..i] + parts + row[i + 1..]
  }

  /**
   * What the carving loop of `reserve` does to one row: the first range that
   * holds `x` is split at `x`; its part before `x` stays unless empty, and
   * unless `x + w` is its end, the part from `x + w` is kept after it.
   * A row with no range holding `x` is left alone.
   */
  function Carve(row: seq<FreeRange>, x: u16, w: int): seq<FreeRange>
    requires CarveOk(row, x, w)
  {
    match FirstContaining(row, x as int)
    case None => row
    case Some(i) =>
      var before, rest := FreeRange(row[i].start, x), FreeRange(x, row[i].end);
      if rest.end as int == x as int + w then
        if before.end - before.start == 0 then row[..i] + row[i + 1..] else row[i := before]
      else
        var after := FreeRange((x as int + w) as u16, rest.end);
        if before.end - before.start == 0 then row[i := after] else Replace(row, i, [before, after])
  }

  /** Columns of a concatenation. */
  lemma {:induction false} FreeAppend(a: seq<FreeRange>, b: seq<FreeRange>, k: int)
    ensures Free(a + b, k) <==> Free(a, k) || Free(b, k)
  {
    if Free(a, k) {
      var i :| 0 <= i < |a| && Contains(a[i], k);
      assert (a + b)[i] == a[i];
    }
    if Free(a + b, k) {
      var i :| 0 <= i < |a + b| && Contains((a + b)[i], k);
      if i >= |a| {
        assert b[i - |a|] == (a + b)[i];
      }
    }
    if Free(b, k) {
      var i :| 0 <= i < |b| && Contains(b[i], k);
      assert (a + b)[i + |a|] == b[i];
    }
  }

  /** Replacing one range of an ordered row by ordered parts that lie inside it keeps the row ordered and in bounds. */
  lemma {:induction false} ReplaceOrdered(row: seq<FreeRange>, i: nat, parts: seq<FreeRange>, size: int)
    requires RowOk(row, size) && i < |row| && Ordered(parts)
    requires forall j | 0 <= j < |parts| :: row[i].start <= parts[j].start && parts[j].end <= row[i].end
    ensures RowOk(Replace(row, i, parts), size)
  {
    var t := Replace(row, i, parts);
    forall a | 0 <= a < |t| ensures t[a].start < t[a].end && t[a].end as int <= size {
      if a < i {
        assert t[a] == row[a];
      } else if a < i + |parts| {
        assert t[a] == parts[a - i];
      } else {
        assert t[a] == row[a - |parts| + 1];
      }
    }
    forall a, b | 0 <= a < b < |t| ensures t[a].end <= t[b].start {
      if b < i {
        assert t[a] == row[a] && t[b] == row[b];
      } else if b < i + |parts| {
        assert t[b] == parts[b - i];
        if a < i {
          assert t[a] == row[a];
        } else {
          assert t[a] == parts[a - i];
        }
      } else {
        assert t[b] == row[b - |parts| + 1];
        if a < i {
          assert t[a] == row[a];
        } else if a < i + |parts| {
          assert t[a] == parts[a - i];
        } else {
          assert t[a] == row[a - |parts| + 1];
        }
      }
    }
  }

  /**
   * The columns of a row with the range at `i` replaced by `parts`: those of
   * the other ranges and those of the parts.
   */
  lemma {:induction false} ReplaceFree(row: seq<FreeRange>, i: nat, parts: seq<FreeRange>, k: int)
    requires i < |row|
    ensures Free(Replace(row, i, parts), k) <==> Free(row[..i], k) || Free(parts, k) || Free(row[i + 1..], k)
    ensures Free(row, k) <==> Free(row[..i], k) || Contains(row[i], k) || Free(row[i + 1..], k)
  {
    FreeAppend(row[..i] + parts, row[i + 1..], k);
    FreeAppend(row[..i], parts, k);
    assert row == row[..i] + [row[i]] + row[i + 1..];
    FreeAppend(row[..i] + [row[i]], row[i + 1..], k);
    FreeAppend(row[..i], [row[i]], k);
    assert Free([row[i]], k) <==> Contains(row[i], k) by {
      if Contains(row[i], k) {
        assert [row[i]][0] == row[i];
      }
    }
  }

  /** In an ordered row, a column of range `i` lies in no other range. */
  lemma {:induction false} OnlyIn(row: seq<FreeRange>, i: nat, k: int)
    requires Ordered(row) && i < |row| && Contains(row[i], k)
    ensures !Free(row[..i], k) && !Free(row[i + 1..], k)
  {
    var before, after := row[..i], row[i + 1..];
    forall j | 0 <= j < |before| ensures !Contains(before[j], k) {
      assert before[j] == row[j] && row[j].end <= row[i].start;
    }
    forall j | 0 <= j < |after| ensures !Contains(after[j], k) {
      assert after[j] == row[i + 1 + j] && row[i].end <= row[i + 1 + j].start;
    }
  }

  /** The four shapes of `Carve` are all one `Replace`, with the parts of the range that survive. */
  function CarvedParts(r: FreeRange, x: u16, w: int): (parts: seq<FreeRange>)
    requires r.start <= x < r.end && x as int + w <= r.end as int && w >= 0
    ensures Ordered(parts)
    ensures forall j | 0 <= j < |parts| :: r.start <= parts[j].start && parts[j].end <= r.end
    ensures forall k: int :: Free(parts, k) <==> Contains(r, k) && !(x as int <= k < x as int + w)
  {
    var before := if r.start < x then [FreeRange(r.start, x)] else [];
    var after := if x as int + w < r.end as int then [FreeRange((x as int + w) as u16, r.end)] else [];
    var parts := before + after;
    assert forall k: int :: Free(parts, k) <==> Free(before, k) || Free(after, k) by {
      forall k: int ensures Free(parts, k) <==> Free(before, k) || Free(after, k) {
        FreeAppend(before, after, k);
      }
    }
    assert forall k: int :: Free(before, k) <==> r.start as int <= k < x as int by {
      forall k: int | r.start as int <= k < x as int ensures Free(before, k) {
        assert Contains(before[0], k);
      }
    }
    assert forall k: int :: Free(after, k) <==> x as int + w <= k < r.end as int by {
      forall k: int | x as int + w <= k < r.end as int ensures Free(after, k) {
        assert Contains(after[0], k);
      }
    }
    parts
  }

  /** `Carve` replaces the range holding `x` with its surviving parts. */
  lemma {:induction false} CarveIsReplace(row: seq<FreeRange>, x: u16, w: int)
    requires CarveOk(row, x, w) && FirstContaining(row, x as int).Some?
    ensures var i := FirstContaining(row, x as int).value;
      Carve(row, x, w) == Replace(row, i, CarvedParts(row[i], x, w))
  {
    var i := FirstContaining(row, x as int).value;
    var r := row[i];
    assert row[i := FreeRange(r.start, x)] == Replace(row, i, [FreeRange(r.start, x)]);
    assert row[i := FreeRange((x as int + w) as u16, r.end)] == Replace(row, i, [FreeRange((x as int + w) as u16, r.end)]);
    assert row[..i] + row[i + 1..] == Replace(row, i, []);
    assert [FreeRange(r.start, x)] + [FreeRange((x as int + w) as u16, r.end)] == [FreeRange(r.start, x), FreeRange((x as int + w) as u16, r.end)];
  }

  /**
   * Carving `x..x+w` out of a row where it can be carved: the row keeps its
   * invariant and loses exactly those columns.
   */
  lemma {:induction false} CarveCorrect(row: seq<FreeRange>, size: int, x: u16, w: int)
    requires RowOk(row, size) && w >= 0 && Reservable(row, x as int, w)
    ensures CarveOk(row, x, w)
    ensures RowOk(Carve(row, x, w), size)
    ensures forall k: int :: Free(Carve(row, x, w), k) <==> Free(row, k) && !(x as int <= k < x as int + w)
  {
    var i :| 0 <= i < |row| && Contains(row[i], x as int) && x as int + w <= row[i].end as int;
    var f := FirstContaining(row, x as int);
    assert forall j | 0 <= j < |row| && Contains(row[j], x as int) :: j == i;
    assert f == Some(i);
    var parts := CarvedParts(row[i], x, w);
    CarveIsReplace(row, x, w);
    ReplaceOrdered(row, i, parts, size);
    forall k: int ensures Free(Carve(row, x, w), k) <==> Free(row, k) && !(x as int <= k < x as int + w) {
      ReplaceFree(row, i, parts, k);
      if x as int <= k < x as int + w {
        OnlyIn(row, i, k);
      }
    }
  }

  /** The rows after `reserve` has carved `x..x+w` out of the band `y..y+h`; the others are as they were. */
  function CarvedBand(rows: seq<seq<FreeRange>>, x: u16, w: int, y: nat, h: nat): (r: seq<seq<FreeRange>>)
    requires y + h <= |rows|
    requires forall yy | y <= yy < y + h :: CarveOk(rows[yy], x, w)
    ensures |r| == |rows|
  {
    seq(|rows|, yy requires 0 <= yy < |rows| => if y <= yy < y + h then Carve(rows[yy], x, w) else rows[yy])
  }

  /**
   * Carving `x..x+w` out of a band of rows where it can be carved: every row
   * keeps its invariant, each band row loses exactly columns `x..x+w`, and
   * the other rows are unchanged.
   */
  lemma {:induction false} CarvedBandCorrect(rows: seq<seq<FreeRange>>, size: u16, x: u16, w: int, y: nat, h: nat)
    requires RowsOk(rows, size) && w >= 0 && y + h <= |rows|
    requires forall yy | y <= yy < y + h :: Reservable(rows[yy], x as int, w)
    ensures forall yy | y <= yy < y + h :: CarveOk(rows[yy], x, w)
    ensures RowsOk(CarvedBand(rows, x, w, y, h), size)
    ensures forall yy, k | y <= yy < y + h ::
      Free(CarvedBand(rows, x, w, y, h)[yy], k) <==> Free(rows[yy], k) && !(x as int <= k < x as int + w)
    ensures forall yy | 0 <= yy < |rows| && !(y <= yy < y + h) :: CarvedBand(rows, x, w, y, h)[yy] == rows[yy]
  {
    forall yy | y <= yy < y + h
      ensures CarveOk(rows[yy], x, w) && RowOk(Carve(rows[yy], x, w), size as int)
      ensures forall k: int :: Free(Carve(rows[yy], x, w), k) <==> Free(rows[yy], k) && !(x as int <= k < x as int + w)
    {
      CarveCorrect(rows[yy], size as int, x, w);
    }
  }

  /**
   * Reservations never overlap: columns that can be reserved in a carved row
   * after `x..x+w` was carved out of it are disjoint from `x..x+w`.
   */
  lemma {:induction false} CarvedDisjoint(row: seq<FreeRange>, size: int, x: u16, w: int, x2: int, w2: int)
    requires RowOk(row, size) && w >= 0 && w2 >= 1 && Reservable(row, x as int, w)
    requires CarveOk(row, x, w) && Reservable(Carve(row, x, w), x2, w2)
    ensures x2 + w2 <= x as int || x as int + w <= x2
  {
    CarveCorrect(row, size, x, w);
    var t := Carve(row, x, w);
    var i :| 0 <= i < |t| && Contains(t[i], x2) && x2 + w2 <= t[i].end as int;
    if x as int <= x2 < x as int + w {
      assert Free(t, x2);
    } else if x2 < x as int < x2 + w2 {
      assert Contains(t[i], x as int);
      assert Free(t, x as int);
    }
  }

  // ---------------------------------------------------------------- the atlas

  class TextureAtlas {
    const size: u16
    var rows: seq<seq<FreeRange>>

    /** Every row's free list is ordered and inside the atlas. */
    ghost predicate Valid()
      reads this
    {
      RowsOk(rows, size)
    }

    /** `TextureAtlas::new`: `size` must fit in a `u16`; every row is entirely free. */
    constructor(size: nat)
      requires size <= U16_MAX
      ensures Valid() && this.size as int == size && rows == FullRows(size as u16)
    {
      this.size := size as u16;
      rows := FullRows(size as u16);
      new;
      forall y | 0 <= y < size ensures RowOk(rows[y], size) {
        FullRowsFree(size as u16, y, 0);
      }
    }

    /**
     * The loop `for y in y..y + height` of `reserve`: the candidate columns of
     * the band, stopping early once none is left.
     */
    method BandColumns(y: nat, height: nat, width: nat) returns (columns: seq<FreeRange>)
      requires Valid() && y + height <= |rows|
      ensures columns == BandCandidates(rows, size, y, height, width)
    {
      columns := [FreeRange(0, size)];
      var yy := y;
      while yy < y + height
        invariant y <= yy <= y + height
        invariant Candidates(rows, yy, y + height, columns, width) == BandCandidates(rows, size, y, height, width)
      {
        columns := KeepIntersection(columns, rows[yy]);
        columns := Retain(columns, width);
        if columns == [] {
          break;
        }
        yy := yy + 1;
      }
    }

    /** The loop over `ranges` of `reserve` for row `y`: carve `x..x+width` out of the first range holding `x`. */
    method CarveRow(y: nat, x: u16, width: nat)
      requires y < |rows| && CarveOk(rows[y], x, width)
      modifies this
      ensures rows == old(rows)[y := Carve(old(rows)[y], x, width)]
    {
      var ranges := rows[y];
      for i := 0 to |ranges|
        invariant ranges == rows[y]
        invariant forall j | 0 <= j < i :: !Contains(ranges[j], x as int)
      {
        var parts := Split(ranges[i], x);
        if parts.Some? {
          var (before, rest) := parts.value;
          assert FirstContaining(ranges, x as int) == Some(i);
          if rest.end as int == x as int + width {
            if Len(before) == 0 {
              ranges := ranges[..i] + ranges[i + 1..];
            } else {
              ranges := ranges[i := before];
            }
          } else {
            var (_, after) := Split(rest, (x as int + width) as u16).value;
            if Len(before) == 0 {
              ranges := ranges[i := after];
            } else {
              ranges := ranges[..i] + [before] + [after] + ranges[i + 1..];
              assert ranges == Replace(old(rows)[y], i, [before, after]);
            }
          }
          break;
        }
      }
      rows := rows[y := ranges];
    }

    /** The loop `for y in y..y + height` that carves the reservation out of the band. */
    method CarveBand(x: u16, width: nat, y: nat, height: nat)
      requires y + height <= |rows|
      requires forall yy | y <= yy < y + height :: CarveOk(rows[yy], x, width)
      modifies this
      ensures rows == CarvedBand(old(rows), x, width, y, height)
    {
      ghost var original := rows;
      for yy := y to y + height
        invariant |rows| == |original|
        invariant forall z | yy <= z < y + height :: rows[z] == original[z]
        invariant rows == CarvedBand(original, x, width, y, yy - y)
      {
        CarveRow(yy, x, width);
      }
    }

    /**
     * `reserve(width, height)`: both must fit in a `u16`. The result is the
     * placement `FirstFit` describes, and on success its band is carved.
     */
    method Reserve(width: nat, height: nat) returns (r: Option<(u16, u16)>)
      requires Valid() && width <= U16_MAX && height <= U16_MAX
      modifies this
      ensures Valid()
      ensures r == FirstFit(old(rows), size, width, height as u16, 0)
      ensures r.None? ==> rows == old(rows)
      ensures r.Some? ==>
        && r.value.1 as int + height <= |old(rows)|
        && (forall yy | r.value.1 as int <= yy < r.value.1 as int + height :: CarveOk(old(rows)[yy], r.value.0, width))
        && rows == CarvedBand(old(rows), r.value.0, width, r.value.1 as int, height)
    {
      var y := 0;
      while y < SaturatingSub(size, height as u16) as int
        invariant y <= SaturatingSub(size, height as u16) as int
        invariant rows == old(rows)
        invariant FirstFit(rows, size, width, height as u16, y) == FirstFit(rows, size, width, height as u16, 0)
      {
        var columns := BandColumns(y, height, width);
        var xRange := ShortestFit(columns, width);
        if xRange.None? {
          y := y + 1;
          continue;
        }
        var x := columns[xRange.value].start;
        FirstFitSound(rows, size, width, height as u16, 0);
        CarvedBandCorrect(rows, size, x, width, y, height);
        CarveBand(x, width, y, height);
        return Some((x, y as u16));
      }
      return None;
    }
  }
}
