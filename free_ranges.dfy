/**
 * The free column intervals of one texture-atlas row (`FreeRange` in
 * `src/render/texture_atlas.rs`) and `keep_intersection`, which intersects two
 * sorted lists of them.
 */
module FreeRanges {
  import opened Primitives

  /** The half-open column interval `start..end`. */
  datatype FreeRange = FreeRange(start: u16, end: u16)

  /** `FreeRange::contains`. */
  predicate Contains(r: FreeRange, x: int) {
    r.start as int <= x < r.end as int
  }

  /** `FreeRange::len`: the number of columns, for a range whose start is not after its end. */
  function Len(r: FreeRange): (n: u16)
    requires r.start <= r.end
    ensures forall x: int :: Contains(r, x) <==> r.start as int <= x < r.start as int + n as int
  {
    r.end - r.start
  }

  /** `FreeRange::split`: at a column inside the range, the parts before and from it. */
  function Split(r: FreeRange, x: u16): (parts: Option<(FreeRange, FreeRange)>)
    ensures parts.Some? <==> Contains(r, x as int)
    ensures parts.Some? ==> parts.value.0 == FreeRange(r.start, x) && parts.value.1 == FreeRange(x, r.end)
  {
    if Contains(r, x as int) then Some((FreeRange(r.start, x), FreeRange(x, r.end))) else None
  }

  /** The two parts of a split range are well-formed, adjacent, cover it exactly and their lengths add up. */
  lemma {:induction false} SplitCovers(r: FreeRange, x: u16, k: int)
    requires Split(r, x).Some?
    ensures var (before, after) := Split(r, x).value;
      && before.start <= before.end && after.start < after.end && before.end == after.start
      && Len(before) as int + Len(after) as int == Len(r) as int
      && (Contains(r, k) <==> Contains(before, k) || Contains(after, k))
      && !(Contains(before, k) && Contains(after, k))
  {
  }

  // ---------------------------------------------------------------- sorted lists

  /** A row's free list: non-empty ranges in increasing order, none overlapping the next (they may touch). */
  predicate Ordered(s: seq<FreeRange>) {
    && (forall i | 0 <= i < |s| :: s[i].start < s[i].end)
    && (forall i, j | 0 <= i < j < |s| :: s[i].end <= s[j].start)
  }

  /** Column `k` lies in one of the ranges. */
  predicate Free(s: seq<FreeRange>, k: int) {
    exists i | 0 <= i < |s| :: Contains(s[i], k)
  }

  /** The range lies inside a single range of the list. */
  predicate Within(r: FreeRange, s: seq<FreeRange>) {
    exists i | 0 <= i < |s| :: s[i].start <= r.start && r.end <= s[i].end
  }

  /** Every column of an ordered list lies at or after its first range's start. */
  lemma {:induction false} FreeFromFirst(s: seq<FreeRange>, k: int)
    requires Ordered(s) && Free(s, k)
    ensures s[0].start as int <= k
  {
    var i :| 0 <= i < |s| && Contains(s[i], k);
    if i > 0 {
      assert s[0].end <= s[i].start;
    }
  }

  /** In an ordered list, a column before the end of the first range is free only in the first range. */
  lemma {:induction false} FreeInFirst(s: seq<FreeRange>, k: int)
    requires Ordered(s) && |s| > 0 && k < s[0].end as int
    ensures Free(s, k) <==> Contains(s[0], k)
  {
  }

  /** The columns of a list are those of its first range and those of the rest. */
  lemma {:induction false} FreeCons(s: seq<FreeRange>, k: int)
    requires |s| > 0
    ensures Free(s, k) <==> Contains(s[0], k) || Free(s[1..], k)
  {
    if Free(s, k) && !Contains(s[0], k) {
      var i :| 0 <= i < |s| && Contains(s[i], k);
      assert s[1..][i - 1] == s[i];
    }
    if Free(s[1..], k) {
      var i :| 0 <= i < |s[1..]| && Contains(s[1..][i], k);
      assert s[i + 1] == s[1..][i];
    }
  }

  lemma {:induction false} WithinCons(r: FreeRange, s: seq<FreeRange>)
    requires |s| > 0
    ensures Within(r, s) <==> (s[0].start <= r.start && r.end <= s[0].end) || Within(r, s[1..])
  {
    if Within(r, s) && !(s[0].start <= r.start && r.end <= s[0].end) {
      var i :| 0 <= i < |s| && s[i].start <= r.start && r.end <= s[i].end;
      assert s[1..][i - 1] == s[i];
    }
    if Within(r, s[1..]) {
      var i :| 0 <= i < |s[1..]| && s[1..][i].start <= r.start && r.end <= s[1..][i].end;
      assert s[i + 1] == s[1..][i];
    }
  }

  // ---------------------------------------------------------------- intersection

  /**
   * `keep_intersection(av, bv)`: walk both lists together. A range of `av`
   * that ends before the current range of `bv` is dropped; a range of `bv`
   * that ends before the current range of `av` is dropped; otherwise the
   * overlap is emitted and the range that ends first is dropped, the other
   * being cut to start where the dropped one ended (`a` is cut explicitly,
   * `b` by staying current).
   */
  function Intersect(av: seq<FreeRange>, bv: seq<FreeRange>): seq<FreeRange>
    decreases |av| + |bv|, if av != [] && bv != [] && av[0].start < bv[0].end then 1 else 0
  {
    if av == [] || bv == [] then []
    else
      var a, b := av[0], bv[0];
      if a.end <= b.start then Intersect(av[1..], bv)
      else if a.start >= b.end then Intersect(av, bv[1..])
      else if a.end <= b.end then
        [if a.start <= b.start then FreeRange(b.start, a.end) else a] + Intersect(av[1..], bv)
      else
        [if b.start <= a.start then FreeRange(a.start, b.end) else b] + Intersect([FreeRange(b.end, a.end)] + av[1..], bv)
  }

  /** What is proved of `Intersect`: a sorted list of ranges, each inside one range of each input, covering exactly the common columns. */
  ghost predicate IntersectionOf(r: seq<FreeRange>, av: seq<FreeRange>, bv: seq<FreeRange>) {
    && Ordered(r)
    && (forall i | 0 <= i < |r| :: Within(r[i], av) && Within(r[i], bv))
    && (forall k: int :: Free(r, k) <==> Free(av, k) && Free(bv, k))
  }

  /** Prepending a range that ends no later than every range of an ordered list starts keeps it ordered. */
  lemma {:induction false} OrderedCons(p: FreeRange, r: seq<FreeRange>)
    requires p.start < p.end && Ordered(r)
    requires forall i | 0 <= i < |r| :: p.end <= r[i].start
    ensures Ordered([p] + r)
  {
    var s := [p] + r;
    forall i, j | 0 <= i < j < |s|
      ensures s[i].end <= s[j].start
    {
      if i > 0 {
        assert s[i] == r[i - 1] && s[j] == r[j - 1];
      } else {
        assert s[j] == r[j - 1];
      }
    }
  }

  /** A range inside one range of an ordered list starts no earlier than the list. */
  lemma {:induction false} WithinStartsAfter(r: FreeRange, s: seq<FreeRange>)
    requires Ordered(s) && Within(r, s)
    ensures s[0].start <= r.start
  {
    var i :| 0 <= i < |s| && s[i].start <= r.start && r.end <= s[i].end;
    if i > 0 {
      assert s[0].end <= s[i].start;
    }
  }

  /** The columns common to `[p] + rest` and `bv`, when `p` is the common part of the first ranges and the rest starts after it. */
  lemma {:induction false} SkipA(av: seq<FreeRange>, bv: seq<FreeRange>, k: int)
    requires Ordered(av) && Ordered(bv) && av != [] && bv != [] && av[0].end <= bv[0].start
    ensures Free(av, k) && Free(bv, k) <==> Free(av[1..], k) && Free(bv, k)
  {
    FreeCons(av, k);
    if Free(bv, k) {
      FreeFromFirst(bv, k);
    }
  }

  lemma {:induction false} SkipB(av: seq<FreeRange>, bv: seq<FreeRange>, k: int)
    requires Ordered(av) && Ordered(bv) && av != [] && bv != [] && av[0].start >= bv[0].end
    ensures Free(av, k) && Free(bv, k) <==> Free(av, k) && Free(bv[1..], k)
  {
    FreeCons(bv, k);
    if Free(av, k) {
      FreeFromFirst(av, k);
    }
  }

  /** The case `a.end <= b.end` with an overlap. */
  lemma {:induction false} ShortA(av: seq<FreeRange>, bv: seq<FreeRange>, k: int)
    requires Ordered(av) && Ordered(bv) && av != [] && bv != []
    requires av[0].end > bv[0].start && av[0].start < bv[0].end && av[0].end <= bv[0].end
    ensures var a, b := av[0], bv[0];
      var p := if a.start <= b.start then FreeRange(b.start, a.end) else a;
      Free(av, k) && Free(bv, k) <==> Contains(p, k) || (Free(av[1..], k) && Free(bv, k))
  {
    FreeCons(av, k);
    if k < av[0].end as int {
      FreeInFirst(bv, k);
    }
  }

  /** The case `a.end > b.end` with an overlap: `a` is cut to start at `b.end`. */
  lemma {:induction false} ShortB(av: seq<FreeRange>, bv: seq<FreeRange>, k: int)
    requires Ordered(av) && Ordered(bv) && av != [] && bv != []
    requires av[0].end > bv[0].start && av[0].start < bv[0].end && av[0].end > bv[0].end
    ensures var a, b := av[0], bv[0];
      var p := if b.start <= a.start then FreeRange(a.start, b.end) else b;
      Free(av, k) && Free(bv, k) <==> Contains(p, k) || (Free([FreeRange(b.end, a.end)] + av[1..], k) && Free(bv, k))
  {
    var cut := [FreeRange(bv[0].end, av[0].end)] + av[1..];
    FreeCons(av, k);
    FreeCons(cut, k);
    assert cut[1..] == av[1..];
    if k < bv[0].end as int {
      FreeInFirst(bv, k);
    }
  }

  /** The cut list `[b.end..a.end] + rest` is ordered and every range inside it is inside `av`. */
  lemma {:induction false} CutOrdered(av: seq<FreeRange>, e: u16)
    requires Ordered(av) && av != [] && av[0].start < e < av[0].end
    ensures Ordered([FreeRange(e, av[0].end)] + av[1..])
    ensures forall r: FreeRange :: Within(r, [FreeRange(e, av[0].end)] + av[1..]) ==> Within(r, av)
  {
    var cut := [FreeRange(e, av[0].end)] + av[1..];
    forall i, j | 0 <= i < j < |cut|
      ensures cut[i].end <= cut[j].start
    {
      assert cut[j] == av[j];
      if i > 0 {
        assert cut[i] == av[i];
      }
    }
    forall r: FreeRange | Within(r, cut)
      ensures Within(r, av)
    {
      var i :| 0 <= i < |cut| && cut[i].start <= r.start && r.end <= cut[i].end;
      assert av[i].start <= r.start && r.end <= av[i].end;
    }
  }

  /** `Intersect` of two ordered lists is their intersection. */
  lemma {:induction false} IntersectCorrect(av: seq<FreeRange>, bv: seq<FreeRange>)
    requires Ordered(av) && Ordered(bv)
    ensures IntersectionOf(Intersect(av, bv), av, bv)
    decreases |av| + |bv|, if av != [] && bv != [] && av[0].start < bv[0].end then 1 else 0
  {
    if av == [] || bv == [] {
      return;
    }
    var a, b := av[0], bv[0];
    var r := Intersect(av, bv);
    if a.end <= b.start {
      IntersectCorrect(av[1..], bv);
      forall k: int ensures Free(r, k) <==> Free(av, k) && Free(bv, k) { SkipA(av, bv, k); }
      forall i | 0 <= i < |r| ensures Within(r[i], av) { WithinCons(r[i], av); }
    } else if a.start >= b.end {
      IntersectCorrect(av, bv[1..]);
      forall k: int ensures Free(r, k) <==> Free(av, k) && Free(bv, k) { SkipB(av, bv, k); }
      forall i | 0 <= i < |r| ensures Within(r[i], bv) { WithinCons(r[i], bv); }
    } else if a.end <= b.end {
      ShortAStep(av, bv);
    } else {
      ShortBStep(av, bv);
    }
  }

  /**
   * The inductive step of `IntersectCorrect`: the overlap `p` of the first
   * ranges, followed by the intersection of what is left.
   */
  lemma {:induction false} ConsIntersection(p: FreeRange, rest: seq<FreeRange>, av: seq<FreeRange>, bv: seq<FreeRange>, left: seq<FreeRange>)
    requires av != [] && bv != [] && p.start < p.end
    requires av[0].start <= p.start && p.end <= av[0].end && bv[0].start <= p.start && p.end <= bv[0].end
    requires IntersectionOf(rest, left, bv)
    requires forall i | 0 <= i < |rest| :: p.end <= rest[i].start
    requires forall r: FreeRange :: Within(r, left) ==> Within(r, av)
    requires forall k: int :: Free(av, k) && Free(bv, k) <==> Contains(p, k) || (Free(left, k) && Free(bv, k))
    ensures IntersectionOf([p] + rest, av, bv)
  {
    var s := [p] + rest;
    OrderedCons(p, rest);
    forall k: int ensures Free(s, k) <==> Free(av, k) && Free(bv, k) {
      FreeCons(s, k);
      assert s[1..] == rest;
    }
    forall i | 0 <= i < |s| ensures Within(s[i], av) && Within(s[i], bv) {
      if i == 0 {
        assert av[0].start <= s[0].start && s[0].end <= av[0].end;
        assert bv[0].start <= s[0].start && s[0].end <= bv[0].end;
      } else {
        assert s[i] == rest[i - 1];
      }
    }
  }

  /** The inductive step of `IntersectCorrect` when `a` ends first. */
  lemma {:induction false} ShortAStep(av: seq<FreeRange>, bv: seq<FreeRange>)
    requires Ordered(av) && Ordered(bv) && av != [] && bv != []
    requires av[0].end > bv[0].start && av[0].start < bv[0].end && av[0].end <= bv[0].end
    ensures IntersectionOf(Intersect(av, bv), av, bv)
    decreases |av| + |bv|, 1, 0
  {
    var a, b := av[0], bv[0];
    var p := if a.start <= b.start then FreeRange(b.start, a.end) else a;
    var rest := Intersect(av[1..], bv);
    IntersectCorrect(av[1..], bv);
    assert Intersect(av, bv) == [p] + rest;
    forall i | 0 <= i < |rest| ensures p.end <= rest[i].start {
      WithinStartsAfter(rest[i], av[1..]);
    }
    forall r: FreeRange | Within(r, av[1..]) ensures Within(r, av) {
      WithinCons(r, av);
    }
    forall k: int ensures Free(av, k) && Free(bv, k) <==> Contains(p, k) || (Free(av[1..], k) && Free(bv, k)) {
      ShortA(av, bv, k);
    }
    ConsIntersection(p, rest, av, bv, av[1..]);
  }

  /** The inductive step of `IntersectCorrect` when `b` ends first. */
  lemma {:induction false} ShortBStep(av: seq<FreeRange>, bv: seq<FreeRange>)
    requires Ordered(av) && Ordered(bv) && av != [] && bv != []
    requires av[0].end > bv[0].start && av[0].start < bv[0].end && av[0].end > bv[0].end
    ensures IntersectionOf(Intersect(av, bv), av, bv)
    decreases |av| + |bv|, 1, 0
  {
    var a, b := av[0], bv[0];
    var p := if b.start <= a.start then FreeRange(a.start, b.end) else b;
    var cut := [FreeRange(b.end, a.end)] + av[1..];
    var rest := Intersect(cut, bv);
    CutOrdered(av, b.end);
    IntersectCorrect(cut, bv);
    assert Intersect(av, bv) == [p] + rest;
    forall i | 0 <= i < |rest| ensures p.end <= rest[i].start {
      WithinStartsAfter(rest[i], cut);
    }
    forall k: int ensures Free(av, k) && Free(bv, k) <==> Contains(p, k) || (Free(cut, k) && Free(bv, k)) {
      ShortB(av, bv, k);
    }
    ConsIntersection(p, rest, av, bv, cut);
  }

  /** Dropping the first range of an ordered list leaves it ordered. */
  lemma {:induction false} OrderedTail(s: seq<FreeRange>)
    requires Ordered(s) && s != []
    ensures Ordered(s[1..])
  {
    forall i, j | 0 <= i < j < |s| - 1
      ensures s[1..][i].end <= s[1..][j].start
    {
      assert s[1..][i] == s[i + 1] && s[1..][j] == s[j + 1];
    }
  }

  /**
   * `Intersect` loses no interval: a non-empty range inside one range of each
   * ordered list lies inside one range of their intersection.
   */
  lemma {:induction false} IntersectKeeps(r: FreeRange, av: seq<FreeRange>, bv: seq<FreeRange>)
    requires Ordered(av) && Ordered(bv) && r.start < r.end
    requires Within(r, av) && Within(r, bv)
    ensures Within(r, Intersect(av, bv))
    decreases |av| + |bv|, if av != [] && bv != [] && av[0].start < bv[0].end then 1 else 0
  {
    var a, b := av[0], bv[0];
    var out := Intersect(av, bv);
    WithinStartsAfter(r, av);
    WithinStartsAfter(r, bv);
    WithinCons(r, av);
    WithinCons(r, bv);
    if a.end <= b.start {
      OrderedTail(av);
      IntersectKeeps(r, av[1..], bv);
    } else if a.start >= b.end {
      OrderedTail(bv);
      IntersectKeeps(r, av, bv[1..]);
    } else if a.end <= b.end {
      var tail := Intersect(av[1..], bv);
      assert out == [out[0]] + tail;
      if a.start <= r.start && r.end <= a.end {
        if |bv| > 1 {
          OrderedTail(bv);
          if Within(r, bv[1..]) {
            WithinStartsAfter(r, bv[1..]);
          }
        }
        WithinCons(r, out);
      } else {
        OrderedTail(av);
        IntersectKeeps(r, av[1..], bv);
        WithinCons(r, out);
      }
    } else {
      var cut := [FreeRange(b.end, a.end)] + av[1..];
      var tail := Intersect(cut, bv);
      assert out == [out[0]] + tail;
      if b.start <= r.start && r.end <= b.end {
        if |av| > 1 {
          OrderedTail(av);
          if Within(r, av[1..]) {
            WithinStartsAfter(r, av[1..]);
          }
        }
        WithinCons(r, out);
      } else {
        OrderedTail(bv);
        WithinStartsAfter(r, bv[1..]);
        CutOrdered(av, b.end);
        WithinCons(r, cut);
        assert cut[1..] == av[1..];
        IntersectKeeps(r, cut, bv);
        WithinCons(r, out);
      }
    }
  }

  /** The test `range_intersect`: `[0, 10)` intersected with `[2, 4), [8, 10)`. */
  lemma {:induction false} RangeIntersectExample()
    ensures Intersect([FreeRange(0, 10)], [FreeRange(2, 4), FreeRange(8, 10)]) == [FreeRange(2, 4), FreeRange(8, 10)]
  {
    var b := [FreeRange(2, 4), FreeRange(8, 10)];
    assert b[1..] == [FreeRange(8, 10)];
    assert Intersect([FreeRange(8, 10)], [FreeRange(8, 10)]) == [FreeRange(8, 10)];
    assert Intersect([FreeRange(4, 10)], b[1..]) == [FreeRange(8, 10)];
  }

  /** One comparison of `Intersect`, on the first ranges `a` and `b` of both lists. */
  lemma {:induction false} IntersectStep(a: FreeRange, rest: seq<FreeRange>, b: FreeRange, more: seq<FreeRange>)
    ensures a.end <= b.start ==> Intersect([a] + rest, [b] + more) == Intersect(rest, [b] + more)
    ensures b.start < a.end && a.start >= b.end ==> Intersect([a] + rest, [b] + more) == Intersect([a] + rest, more)
    ensures b.start < a.end && a.start < b.end && a.end <= b.end ==>
      Intersect([a] + rest, [b] + more) == [if a.start <= b.start then FreeRange(b.start, a.end) else a] + Intersect(rest, [b] + more)
    ensures b.start < a.end && a.start < b.end && a.end > b.end ==>
      Intersect([a] + rest, [b] + more) ==
        [if b.start <= a.start then FreeRange(a.start, b.end) else b] + Intersect([FreeRange(b.end, a.end)] + rest, [b] + more)
  {
    assert ([a] + rest)[1..] == rest;
    assert ([b] + more)[1..] == more;
  }

  /** Sequence concatenation is associative. */
  lemma {:induction false} Associative(x: seq<FreeRange>, y: seq<FreeRange>, z: seq<FreeRange>)
    ensures (x + y) + z == x + (y + z)
  {
  }

  /** The iterator state `next_a` followed by what `a_iter` has left. */
  function Pending(nextA: Option<FreeRange>, rest: seq<FreeRange>): seq<FreeRange> {
    if nextA.Some? then [nextA.value] + rest else []
  }

  /** `a_iter.next()`: the range at position `i` of `av`, if any, and the position after it. */
  method NextRange(av: seq<FreeRange>, i: nat) returns (next: Option<FreeRange>, i': nat)
    requires i <= |av|
    ensures i' <= |av| && (next.None? ==> i' == |av|)
    ensures next == (if i < |av| then Some(av[i]) else None)
    ensures Pending(next, av[i'..]) == av[i..]
  {
    if i < |av| {
      next, i' := Some(av[i]), i + 1;
      assert av[i..] == [av[i]] + av[i'..];
    } else {
      next, i' := None, i;
    }
  }

  /**
   * The inner loop `'a` of `keep_intersection` for one range `b` of the second
   * list: it walks the first list from `nextA`, pushing every overlap with
   * `b`, until the first list runs out or reaches past `b`. `more` stands for
   * the ranges of the second list after `b`.
   */
  method IntersectWithRange(av: seq<FreeRange>, i0: nat, next0: Option<FreeRange>, b: FreeRange,
                            pushed: seq<FreeRange>, ghost more: seq<FreeRange>)
    returns (nextA: Option<FreeRange>, i: nat, intersection: seq<FreeRange>)
    requires i0 <= |av| && (next0.None? ==> i0 == |av|)
    ensures i <= |av| && (nextA.None? ==> i == |av|)
    ensures pushed + Intersect(Pending(next0, av[i0..]), [b] + more)
         == intersection + Intersect(Pending(nextA, av[i..]), more)
  {
    nextA, i, intersection := next0, i0, pushed;
    while nextA.Some?
      invariant i <= |av| && (nextA.None? ==> i == |av|)
      invariant pushed + Intersect(Pending(next0, av[i0..]), [b] + more)
             == intersection + Intersect(Pending(nextA, av[i..]), [b] + more)
      decreases |av| - i, if nextA.Some? then 1 else 0, if nextA.Some? && nextA.value.start < b.end then 1 else 0
    {
      var a := nextA.value;
      ghost var pa := Pending(nextA, av[i..]);
      ghost var done := intersection;
      IntersectStep(a, av[i..], b, more);
      if a.end <= b.start {
        nextA, i := NextRange(av, i);
      } else if a.start >= b.end {
        break;
      } else {
        var short, long;
        if a.end <= b.end {
          nextA, i := NextRange(av, i);
          short, long := a, b;
        } else {
          nextA := Some(FreeRange(b.end, a.end));
          short, long := b, a;
        }
        var overlap := if short.start <= long.start then FreeRange(long.start, short.end) else short;
        intersection := intersection + [overlap];
        Associative(done, [overlap], Intersect(Pending(nextA, av[i..]), [b] + more));
      }
    }
  }

  /** `keep_intersection`: the outer loop `'b` over the second list, with the iterator over the first as an index. */
  method KeepIntersection(av: seq<FreeRange>, bv: seq<FreeRange>) returns (intersection: seq<FreeRange>)
    ensures intersection == Intersect(av, bv)
  {
    intersection := [];
    var nextA, i := NextRange(av, 0);
    var j := 0;
    while j < |bv| && nextA.Some?
      invariant 0 <= i <= |av| && 0 <= j <= |bv|
      invariant nextA.None? ==> i == |av|
      invariant intersection + Intersect(Pending(nextA, av[i..]), bv[j..]) == Intersect(av, bv)
    {
      assert bv[j..] == [bv[j]] + bv[j + 1..];
      nextA, i, intersection := IntersectWithRange(av, i, nextA, bv[j], intersection, bv[j + 1..]);
      j := j + 1;
    }
    assert nextA.None? || bv[j..] == [];
  }
}
