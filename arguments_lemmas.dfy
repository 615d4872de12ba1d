/**
 * Properties of the numeric arguments of control sequences: what
 * `Argument::single` accepts and the value it reads, the defaulting of absent
 * or zero arguments, how parameter lists split, and the argument limit of
 * `Argument::multi`.
 */
module ArgumentProperties {
  import opened Primitives
  import opened ControlCode

  predicate AllDigits(p: seq<byte>) {
    forall k | 0 <= k < |p| :: IsDigit(p[k])
  }

  function Pow10(n: nat): (r: nat)
    ensures r >= 1
  {
    if n == 0 then 1 else 10 * Pow10(n - 1)
  }

  /** The positional decimal value of a digit string, most significant digit first. */
  function Decimal(p: seq<byte>): nat
    requires AllDigits(p)
  {
    if p == [] then 0 else (p[0] - 0x30) * Pow10(|p| - 1) + Decimal(p[1..])
  }

  lemma {:induction false} ShiftDigit(acc: nat, d: nat, power: nat, low: nat)
    ensures acc * (10 * power) + (d * power + low) == (acc * 10 + d) * power + low
  {
  }

  lemma {:induction false} AtLeastOnce(a: nat, power: nat)
    requires power >= 1
    ensures a * power >= a
  {
  }

  /** The digit loop, started from `acc`, reads `acc` followed by the digits, or overflows. */
  lemma {:induction false} SingleFromValue(p: seq<byte>, acc: u16)
    ensures SingleFrom(p, acc).Some? <==> AllDigits(p) && acc * Pow10(|p|) + Decimal(p) <= U16_MAX
    ensures SingleFrom(p, acc).Some? ==> SingleFrom(p, acc).value == acc * Pow10(|p|) + Decimal(p)
    decreases |p|
  {
    if p != [] {
      var q := p[1..];
      if !IsDigit(p[0]) {
        assert !AllDigits(p);
      } else {
        var d := p[0] - 0x30;
        var next := acc * 10 + d;
        assert AllDigits(p) <==> AllDigits(q) by {
          if AllDigits(q) {
            forall k | 0 <= k < |p| ensures IsDigit(p[k]) {
              if k > 0 { assert p[k] == q[k - 1]; }
            }
          }
        }
        if AllDigits(q) {
          var power := Pow10(|q|);
          assert Pow10(|p|) == 10 * power;
          assert Decimal(p) == d * power + Decimal(q);
          ShiftDigit(acc, d, power, Decimal(q));
          AtLeastOnce(next, power);
        }
        if next <= U16_MAX {
          SingleFromValue(q, next);
        }
      }
    }
  }

  /** `Argument::single` accepts exactly the digit strings whose value fits in 16 bits, and reads that value. */
  lemma {:induction false} SingleAccepts(p: seq<byte>)
    ensures Single(p).Some? <==> AllDigits(p) && Decimal(p) <= U16_MAX
    ensures Single(p).Some? ==> Single(p).value.value == Decimal(p)
  {
    SingleFromValue(p, 0);
  }

  /** An empty parameter and an explicit zero both fall back to the default. */
  lemma {:induction false} ZeroTakesDefault(p: seq<byte>, default: u16)
    requires AllDigits(p) && Decimal(p) == 0
    ensures Single(p).Some? && WithDefault(Single(p).value, default) == default
  {
    SingleAccepts(p);
  }

  /** A cursor movement always moves at least one step. */
  lemma {:induction false} MoveAtLeastOne(p: seq<byte>, direction: Direction)
    requires Move(p, direction).ok
    ensures Move(p, direction).cmds == [MoveCursor(direction, Move(p, direction).cmds[0].steps)]
    ensures Move(p, direction).cmds[0].steps >= 1
  {
  }

  /** The number of bytes of `p` that belong to `seps`. */
  function CountIn(p: seq<byte>, seps: set<byte>): nat {
    if p == [] then 0 else (if p[0] in seps then 1 else 0) + CountIn(p[1..], seps)
  }

  lemma {:induction false} CountInAppend(a: seq<byte>, b: seq<byte>, seps: set<byte>)
    ensures CountIn(a + b, seps) == CountIn(a, seps) + CountIn(b, seps)
  {
    if a == [] {
      assert a + b == b;
    } else {
      assert (a + b)[1..] == a[1..] + b;
      CountInAppend(a[1..], b, seps);
    }
  }

  lemma {:induction false} CountInNone(p: seq<byte>, seps: set<byte>)
    requires forall k | 0 <= k < |p| :: p[k] !in seps
    ensures CountIn(p, seps) == 0
  {
    if p != [] {
      CountInNone(p[1..], seps);
    }
  }

  /** Splitting yields one more piece than there are separators. */
  lemma {:induction false} SplitCount(p: seq<byte>, seps: set<byte>)
    ensures |Split(p, seps)| == CountIn(p, seps) + 1
    decreases |p|
  {
    match Position(p, seps)
    case None =>
      CountInNone(p, seps);
    case Some(i) =>
      SplitCount(p[i + 1..], seps);
      assert p == p[..i] + ([p[i]] + p[i + 1..]);
      CountInAppend(p[..i], [p[i]] + p[i + 1..], seps);
      CountInAppend([p[i]], p[i + 1..], seps);
      CountInNone(p[..i], seps);
  }

  /** The pieces joined back with the separator `sep`. */
  function JoinWith(pieces: seq<seq<byte>>, sep: byte): seq<byte>
    requires |pieces| >= 1
  {
    if |pieces| == 1 then pieces[0] else pieces[0] + [sep] + JoinWith(pieces[1..], sep)
  }

  /** Splitting on a single separator and joining again gives back the input. */
  lemma {:induction false} SplitJoin(p: seq<byte>, sep: byte)
    ensures JoinWith(Split(p, {sep}), sep) == p
    decreases |p|
  {
    match Position(p, {sep})
    case None =>
    case Some(i) =>
      var rest := Split(p[i + 1..], {sep});
      var pieces := Split(p, {sep});
      assert pieces == [p[..i]] + rest;
      assert pieces[0] == p[..i] && pieces[1..] == rest;
      SplitJoin(p[i + 1..], sep);
      assert JoinWith(pieces, sep) == p[..i] + [sep] + JoinWith(rest, sep);
      assert p == p[..i] + [sep] + p[i + 1..];
  }

  /** `Argument::multi::<2>` rejects a list with more than two arguments. */
  lemma {:induction false} MultiRejectsThree(p: seq<byte>)
    requires CountIn(p, ARG_SEPS) >= 2
    ensures Multi2(p).None?
  {
    SplitCount(p, ARG_SEPS);
  }

  /** Two separator-free arguments joined by `;` split into exactly those two. */
  lemma {:induction false} SplitTwo(a: seq<byte>, b: seq<byte>)
    requires forall k | 0 <= k < |a| :: a[k] !in ARG_SEPS
    requires forall k | 0 <= k < |b| :: b[k] !in ARG_SEPS
    ensures Split(a + [SEMICOLON] + b, ARG_SEPS) == [a, b]
  {
    var p := a + [SEMICOLON] + b;
    PositionIs(p, ARG_SEPS, |a|);
    assert p[..|a|] == a;
    assert p[|a| + 1..] == b;
    PositionNone(b, ARG_SEPS);
  }

  /** A piece of a parameter list that `Argument::single` reads: decimal digits of at most 65535. */
  predicate Readable(piece: seq<byte>) {
    AllDigits(piece) && Decimal(piece) <= U16_MAX
  }

  /** A one-based coordinate on the wire as a zero-based one: 0 (absent) and 1 both mean the first. */
  function ZeroBased(v: nat): nat {
    if v == 0 then 0 else v - 1
  }

  /**
   * `CSI … H` accepts exactly the parameter lists of at most two readable
   * pieces, split at `;` or `:`. It then emits one `set_cursor_pos` with each
   * value made zero-based, a missing column counting as 0 (so a bare
   * `CSI H` goes to the origin); otherwise it emits nothing.
   */
  lemma {:induction false} CursorPositionOneBased(p: seq<byte>)
    ensures var pieces, r := Split(p, ARG_SEPS), StandardTerminator(p, 0x48);
      && (r.ok <==> |pieces| <= 2 && forall i | 0 <= i < |pieces| :: Readable(pieces[i]))
      && (r.ok ==> |r.cmds| == 1 && r.cmds[0].SetCursorPos? &&
                   r.cmds[0].row == ZeroBased(Decimal(pieces[0])) &&
                   r.cmds[0].col == (if |pieces| == 2 then ZeroBased(Decimal(pieces[1])) else 0))
      && (!r.ok ==> r.cmds == [])
  {
    var pieces := Split(p, ARG_SEPS);
    SingleAccepts(pieces[0]);
    if |pieces| >= 2 {
      SingleAccepts(pieces[1]);
    }
    if |pieces| <= 2 && Single(pieces[0]).Some? && (|pieces| == 1 || Single(pieces[1]).Some?) {
      forall i | 0 <= i < |pieces| ensures Readable(pieces[i]) {
      }
    }
  }

  lemma {:induction false} PositionIs(p: seq<byte>, seps: set<byte>, i: nat)
    requires i < |p| && p[i] in seps
    requires forall k | 0 <= k < i :: p[k] !in seps
    ensures Position(p, seps) == Some(i)
  {
    if i > 0 {
      PositionIs(p[1..], seps, i - 1);
    }
  }

  lemma {:induction false} PositionNone(p: seq<byte>, seps: set<byte>)
    requires forall k | 0 <= k < |p| :: p[k] !in seps
    ensures Position(p, seps) == None
  {
  }
}
