/**
 * The escape-sequence decoder. `Parse` scans a byte string and records the
 * calls it would make on a `Terminal` sink as a sequence of `Command`s,
 * returning the unconsumed tail (a control sequence or a UTF-8 character cut
 * off by the end of the input). Parsing a control sequence works on the
 * remaining input as the byte iterator does: each step yields the commands it
 * emitted, how it ended, and the bytes the iterator has not yet consumed.
 */
module ControlCode {
  import opened Primitives
  import opened Utf8
  import opened Colors

  // ---------------------------------------------------------------- sink

  datatype Toggle = Enable | Disable

  datatype ClearRegion =
    | ToEnd     // from the cursor to the end of the region
    | ToStart   // from the start of the region to the cursor
    | All

  datatype Direction = Up | Down | Left | Right

  /** `CharacterStyles`, a set of eight style bits. */
  type Styles = bv8

  const BOLD: Styles := 0x01
  const FAINT: Styles := 0x02
  const ITALIC: Styles := 0x04
  const UNDERLINE: Styles := 0x08
  const BLINK: Styles := 0x10
  const INVERSE: Styles := 0x20
  const INVISIBLE: Styles := 0x40
  const STRIKETHROUGH: Styles := 0x80
  const ALL_STYLES: Styles := 0xFF

  /** One call on the `Terminal` sink, with its arguments. */
  datatype Command =
    | InvalidControlSequence(bytes: seq<byte>)
    | Text(text: string)
    | InvalidUtf8(bytes: seq<byte>)
    | Bell
    | Tab
    | Backspace
    | CarriageReturn
    | LineFeed
    | MoveCursor(direction: Direction, steps: u16)
    | SetCursorPos(row: u16, col: u16)
    | ClearLine(region: ClearRegion)
    | ClearScreen(region: ClearRegion)
    | ClearScrollback
    | SetBracketedPaste(toggle: Toggle)
    | SetApplicationCursor(toggle: Toggle)
    | SetCharacterStyle(style: Styles)
    | ResetCharacterStyle(style: Styles)
    | SetForegroundColor(color: Color)
    | ResetForegroundColor
    | SetBackgroundColor(color: Color)
    | ResetBackgroundColor
    | SetWindowTitle(title: string)

  // ---------------------------------------------------------------- bytes

  const BEL: byte := 0x07
  const BS: byte := 0x08
  const HT: byte := 0x09
  const LF: byte := 0x0A
  const CR: byte := 0x0D
  const ESC: byte := 0x1B
  const DEL: byte := 0x7F

  /** `u8::is_ascii_control`. */
  predicate IsAsciiControl(b: byte) {
    b < 0x20 || b == DEL
  }

  predicate IsDigit(b: byte) {
    0x30 <= b <= 0x39
  }

  /** `t` is what is left of `s` after some bytes were taken from its front. */
  predicate IsSuffix(t: seq<byte>, s: seq<byte>) {
    |t| <= |s| && s[|s| - |t|..] == t
  }

  // ---------------------------------------------------------------- results

  /** How parsing a control sequence ended (`Ok(())` or a `ParseError`). */
  datatype Outcome = Parsed | Incomplete | Invalid

  /** Commands emitted, how it ended, and what the byte iterator still holds. */
  datatype Control = Control(cmds: seq<Command>, outcome: Outcome, rest: seq<byte>)

  /** Commands emitted by a dispatcher working on an already-framed sequence, and whether it succeeded. */
  datatype Reply = Reply(cmds: seq<Command>, ok: bool)

  /** Commands emitted for a run of bytes and the tail left unconsumed. */
  datatype Decoded = Decoded(cmds: seq<Command>, tail: seq<byte>)

  function Fail(): Reply { Reply([], false) }

  // ---------------------------------------------------------------- util::take_while

  /**
   * The number of leading bytes of `s` inside `lo..=hi`, or `None`
   * (`ParseError::Incomplete`) when every byte of `s` is inside.
   */
  function TakeWhileIn(s: seq<byte>, lo: byte, hi: byte): (n: Option<nat>)
    ensures n.Some? ==> n.value < |s|
    decreases |s|
  {
    if s == [] then None
    else if lo <= s[0] <= hi then
      match TakeWhileIn(s[1..], lo, hi)
      case None => None
      case Some(n) => Some(n + 1)
    else Some(0)
  }

  /** `take_while` stops at the first byte outside the range, and runs off the end only when there is none. */
  lemma {:induction false} TakeWhileInStops(s: seq<byte>, lo: byte, hi: byte)
    ensures var n := TakeWhileIn(s, lo, hi);
      && (n.None? <==> forall k | 0 <= k < |s| :: lo <= s[k] <= hi)
      && (n.Some? ==> !(lo <= s[n.value] <= hi))
      && (n.Some? ==> forall k | 0 <= k < n.value :: lo <= s[k] <= hi)
    decreases |s|
  {
    if s != [] && lo <= s[0] <= hi {
      TakeWhileInStops(s[1..], lo, hi);
      assert forall k | 1 <= k < |s| :: s[k] == s[1..][k - 1];
    }
  }

  // ---------------------------------------------------------------- Argument

  /**
   * `Argument`: an `Option<NonZeroU16>`, held here as a `u16` whose zero
   * stands for `None` exactly as `NonZeroU16::new` maps it.
   */
  datatype Argument = Argument(value: u16)

  function WithDefault(a: Argument, default: u16): (v: u16)
    ensures v == 0 ==> default == 0
    ensures a.value != 0 ==> v == a.value
  {
    if a.value == 0 then default else a.value
  }

  /** The digit loop of `Argument::single`, continuing from the accumulator `acc`. */
  function SingleFrom(p: seq<byte>, acc: u16): Option<u16>
    decreases |p|
  {
    if p == [] then Some(acc)
    else if IsDigit(p[0]) then
      if acc * 10 > U16_MAX || acc * 10 + (p[0] - 0x30) > U16_MAX then None
      else SingleFrom(p[1..], acc * 10 + (p[0] - 0x30))
    else None
  }

  /** `Argument::single`: `None` is `ParseError::Invalid`. */
  function Single(p: seq<byte>): Option<Argument> {
    match SingleFrom(p, 0)
    case None => None
    case Some(v) => Some(Argument(v))
  }

  /** The first index of a byte of `seps` in `p`, if any. */
  function Position(p: seq<byte>, seps: set<byte>): (i: Option<nat>)
    ensures i.Some? ==> i.value < |p| && p[i.value] in seps
    ensures i.Some? ==> forall k | 0 <= k < i.value :: p[k] !in seps
    ensures i.None? ==> forall k | 0 <= k < |p| :: p[k] !in seps
    decreases |p|
  {
    if p == [] then None
    else if p[0] in seps then Some(0)
    else
      match Position(p[1..], seps)
      case None => None
      case Some(i) => Some(i + 1)
  }

  /** `<[u8]>::split`: the pieces between separators, always at least one. */
  function Split(p: seq<byte>, seps: set<byte>): (pieces: seq<seq<byte>>)
    ensures |pieces| >= 1
    ensures forall i, k | 0 <= i < |pieces| && 0 <= k < |pieces[i]| :: pieces[i][k] !in seps
    decreases |p|
  {
    match Position(p, seps)
    case None => [p]
    case Some(i) => [p[..i]] + Split(p[i + 1..], seps)
  }

  const SEMICOLON: byte := 0x3B
  const COLON: byte := 0x3A

  /** The separators of `Argument::iter` and `ArgumentList::next`. */
  const ARG_SEPS: set<byte> := {SEMICOLON, COLON}

  /** `Argument::multi::<2>`: at most two arguments, absent ones defaulted. */
  function Multi2(p: seq<byte>): Option<(Argument, Argument)> {
    var pieces := Split(p, ARG_SEPS);
    if |pieces| > 2 then None
    else
      match Single(pieces[0])
      case None => None
      case Some(first) =>
        if |pieces| == 1 then Some((first, Argument(0)))
        else
          match Single(pieces[1])
          case None => None
          case Some(second) => Some((first, second))
  }

  /** The first `ArgumentList::next` of a parameter list: the argument before the first `:` or `;`. */
  function FirstListed(p: seq<byte>): Option<Argument> {
    match Position(p, ARG_SEPS)
    case Some(i) => Single(p[..i])
    case None => Single(p)
  }

  // ---------------------------------------------------------------- dispatchers

  /** `parse_question_terminator_toggle`. */
  function QuestionToggle(p: seq<byte>, toggle: Toggle): Reply {
    match Single(p)
    case None => Fail()
    case Some(a) =>
      var code := WithDefault(a, 0);
      if code == 1 then Reply([SetApplicationCursor(toggle)], true)
      else if code == 2004 then Reply([SetBracketedPaste(toggle)], true)
      else Fail()
  }

  /** `parse_escape_question_terminator`: `CSI ? … h` enables, `CSI ? … l` disables. */
  function QuestionTerminator(p: seq<byte>, terminator: byte): Reply {
    if terminator == 0x68 then QuestionToggle(p, Enable)        // 'h'
    else if terminator == 0x6C then QuestionToggle(p, Disable)  // 'l'
    else Fail()
  }

  /** The commands of one SGR code, or `None` for a code the decoder does not know. */
  function SgrCode(code: u16): Option<seq<Command>> {
    if code == 0 then Some([ResetCharacterStyle(ALL_STYLES), ResetForegroundColor, ResetBackgroundColor])
    else if code == 1 then Some([SetCharacterStyle(BOLD)])
    else if code == 21 then Some([ResetCharacterStyle(BOLD)])
    else if code == 2 then Some([SetCharacterStyle(FAINT)])
    else if code == 22 then Some([ResetCharacterStyle(FAINT)])
    else if code == 3 then Some([SetCharacterStyle(ITALIC)])
    else if code == 23 then Some([ResetCharacterStyle(ITALIC)])
    else if code == 4 then Some([SetCharacterStyle(UNDERLINE)])
    else if code == 24 then Some([ResetCharacterStyle(UNDERLINE)])
    else if code == 5 then Some([SetCharacterStyle(BLINK)])
    else if code == 25 then Some([ResetCharacterStyle(BLINK)])
    else if code == 7 then Some([SetCharacterStyle(INVERSE)])
    else if code == 27 then Some([ResetCharacterStyle(INVERSE)])
    else if code == 8 then Some([SetCharacterStyle(INVISIBLE)])
    else if code == 28 then Some([ResetCharacterStyle(INVISIBLE)])
    else if code == 9 then Some([SetCharacterStyle(STRIKETHROUGH)])
    else if code == 29 then Some([ResetCharacterStyle(STRIKETHROUGH)])
    else if 30 <= code <= 37 then Some([SetForegroundColor(Index(code - 30))])
    else if 90 <= code <= 97 then Some([SetForegroundColor(Index(code - 90))])
    else if code == 39 then Some([ResetForegroundColor])
    else if 40 <= code <= 47 then Some([SetBackgroundColor(Index(code - 30))])
    else if 100 <= code <= 107 then Some([SetBackgroundColor(Index(code - 100))])
    else if code == 49 then Some([ResetBackgroundColor])
    else None
  }

  /** The `;`-groups of an SGR sequence, left to right, stopping at the first one that fails. */
  function SgrGroups(groups: seq<seq<byte>>): Reply
    decreases |groups|
  {
    if groups == [] then Reply([], true)
    else
      match FirstListed(groups[0])
      case None => Fail()
      case Some(a) =>
        match SgrCode(WithDefault(a, 0))
        case None => Fail()
        case Some(cmds) =>
          var more := SgrGroups(groups[1..]);
          Reply(cmds + more.cmds, more.ok)
  }

  /** `parse_character_attribute`. */
  function CharacterAttribute(p: seq<byte>): Reply {
    SgrGroups(Split(p, {SEMICOLON}))
  }

  /** `Argument::single(p)?.with_default(default)`, or `None` for `Invalid`. */
  function SingleOr(p: seq<byte>, default: u16): Option<u16> {
    match Single(p)
    case None => None
    case Some(a) => Some(WithDefault(a, default))
  }

  function Move(p: seq<byte>, direction: Direction): Reply {
    match SingleOr(p, 1)
    case None => Fail()
    case Some(steps) => Reply([MoveCursor(direction, steps)], true)
  }

  function ClearRegionOf(code: u16): Option<ClearRegion> {
    if code == 0 then Some(ToEnd)
    else if code == 1 then Some(ToStart)
    else if code == 2 then Some(All)
    else None
  }

  /** `parse_escape_standard_terminator`. */
  function StandardTerminator(p: seq<byte>, terminator: byte): Reply {
    if terminator == 0x6D then CharacterAttribute(p)   // 'm'
    else if terminator == 0x41 then Move(p, Up)        // 'A'
    else if terminator == 0x42 then Move(p, Down)      // 'B'
    else if terminator == 0x43 then Move(p, Right)     // 'C'
    else if terminator == 0x44 then Move(p, Left)      // 'D'
    else if terminator == 0x48 then                    // 'H'
      match Multi2(p)
      case None => Fail()
      case Some((row, col)) => Reply([SetCursorPos(WithDefault(row, 1) - 1, WithDefault(col, 1) - 1)], true)
    else if terminator == 0x4A then                    // 'J'
      match SingleOr(p, 0)
      case None => Fail()
      case Some(code) =>
        if code == 3 then Reply([ClearScrollback], true)
        else match ClearRegionOf(code)
          case None => Fail()
          case Some(region) => Reply([ClearScreen(region)], true)
    else if terminator == 0x4B then                    // 'K'
      match SingleOr(p, 0)
      case None => Fail()
      case Some(code) =>
        match ClearRegionOf(code)
        case None => Fail()
        case Some(region) => Reply([ClearLine(region)], true)
    else Fail()
  }

  // ---------------------------------------------------------------- framing

  const QUESTION: byte := 0x3F

  predicate IsParameterByte(b: byte) { 0x30 <= b <= 0x3F }
  predicate IsIntermediateByte(b: byte) { 0x20 <= b <= 0x2F }
  predicate IsFinalByte(b: byte) { 0x40 <= b <= 0x7E }

  function Finish(r: Reply, rest: seq<byte>): Control {
    Control(r.cmds, if r.ok then Parsed else Invalid, rest)
  }

  /** What two `take_while` calls and one `next` cut from the front of the input. */
  datatype Fields =
    | Cut   // the input ended first (`ParseError::Incomplete`)
    | Fields(first: seq<byte>, second: seq<byte>, terminator: byte, rest: seq<byte>)

  /**
   * A run of bytes in `lo1..=hi1`, then a run in `lo2..=hi2`, then the byte
   * that ended the second run; `Cut` when the input ends inside the runs.
   */
  function TakeFields(s: seq<byte>, lo1: byte, hi1: byte, lo2: byte, hi2: byte): (f: Fields)
    ensures f.Fields? ==> s == f.first + f.second + [f.terminator] + f.rest
  {
    match TakeWhileIn(s, lo1, hi1)
    case None => Cut
    case Some(n1) =>
      var u := s[n1..];
      match TakeWhileIn(u, lo2, hi2)
      case None => Cut
      case Some(n2) =>
        var first, second, rest := s[..n1], u[..n2], u[n2 + 1..];
        assert s == first + u;
        assert u == second + [u[n2]] + rest;
        assert s == first + second + [u[n2]] + rest;
        Fields(first, second, u[n2], rest)
  }

  /** The first run lies in `lo1..=hi1`, the second in `lo2..=hi2`, and the terminator ends both. */
  lemma {:induction false} TakeFieldsRanges(s: seq<byte>, lo1: byte, hi1: byte, lo2: byte, hi2: byte)
    ensures var f := TakeFields(s, lo1, hi1, lo2, hi2);
      f.Fields? ==>
        && (forall k | 0 <= k < |f.first| :: lo1 <= f.first[k] <= hi1)
        && (forall k | 0 <= k < |f.second| :: lo2 <= f.second[k] <= hi2)
        && !(lo2 <= f.terminator <= hi2)
        && (f.second == [] ==> !(lo1 <= f.terminator <= hi1))
  {
    var f := TakeFields(s, lo1, hi1, lo2, hi2);
    if f.Fields? {
      var n1 := TakeWhileIn(s, lo1, hi1).value;
      var u := s[n1..];
      TakeWhileInStops(s, lo1, hi1);
      TakeWhileInStops(u, lo2, hi2);
      assert forall k | 0 <= k < |f.first| :: f.first[k] == s[k];
      assert forall k | 0 <= k < |f.second| :: f.second[k] == u[k];
      assert f.second == [] ==> f.terminator == s[n1];
    }
  }

  /** The dispatch of `parse_escape_control_sequence` once the sequence is framed. */
  function ControlSequenceDispatch(parameters: seq<byte>, terminator: byte): Reply {
    if parameters != [] && parameters[0] == QUESTION then QuestionTerminator(parameters[1..], terminator)
    else StandardTerminator(parameters, terminator)
  }

  /**
   * `parse_escape_control_sequence` on the bytes after `ESC [`, with
   * `parse_control_sequence_parts` as its framing: parameter bytes,
   * intermediate bytes, then a final byte.
   */
  function ControlSequence(s: seq<byte>): (c: Control)
    ensures c.outcome != Incomplete ==> |c.rest| < |s|
    ensures c.outcome == Incomplete ==> c.cmds == []
  {
    match TakeFields(s, 0x30, 0x3F, 0x20, 0x2F)
    case Cut => Control([], Incomplete, s)
    case Fields(parameters, intermediate, terminator, rest) =>
      if !IsFinalByte(terminator) then Control([], Invalid, rest)
      else if intermediate != [] then Control([], Invalid, rest)
      else Finish(ControlSequenceDispatch(parameters, terminator), rest)
  }

  /** Bytes below 0x80 read as the ASCII characters they encode. */
  function AsciiText(p: seq<byte>): string {
    seq(|p|, k requires 0 <= k < |p| => p[k] as char)
  }

  /** The checks of `parse_operating_system_command` after its BEL terminator. */
  function OscDispatch(numbers: seq<byte>, parameters: seq<byte>): Reply {
    if parameters == [] || parameters[0] != SEMICOLON then Fail()
    else if parameters[1..] == [QUESTION] then Fail()
    else
      match SingleOr(numbers, 0)
      case None => Fail()
      case Some(code) =>
        if code == 0 || code == 2 then Reply([SetWindowTitle(AsciiText(parameters[1..]))], true)
        else if code == 1 || code == 3 then Reply([], true)
        else Fail()
  }

  /** `parse_operating_system_command` on the bytes after `ESC ]`. */
  function OperatingSystemCommand(s: seq<byte>): (c: Control)
    ensures c.outcome != Incomplete ==> |c.rest| < |s|
    ensures c.outcome == Incomplete ==> c.cmds == []
  {
    match TakeFields(s, 0x30, 0x39, 0x20, 0x7E)
    case Cut => Control([], Incomplete, s)
    case Fields(numbers, parameters, terminator, rest) =>
      if terminator != BEL then Control([], Invalid, rest)
      else Finish(OscDispatch(numbers, parameters), rest)
  }

  /** `parse_escape_sequence` on the bytes after `ESC`. */
  function EscapeSequence(s: seq<byte>): (c: Control)
    ensures c.outcome != Incomplete ==> |c.rest| < |s|
    ensures c.outcome == Incomplete ==> c.cmds == []
  {
    if s == [] then Control([], Incomplete, s)
    else if s[0] == 0x5B then                                     // '['
      var c := ControlSequence(s[1..]);
      if c.outcome == Incomplete then Control([], Incomplete, s) else c
    else if s[0] == 0x5D then                                     // ']'
      var c := OperatingSystemCommand(s[1..]);
      if c.outcome == Incomplete then Control([], Incomplete, s) else c
    else if s[0] == 0x28 then                                     // '('
      if |s| < 2 then Control([], Incomplete, s) else Control([], Parsed, s[2..])
    else Control([], Invalid, s[1..])
  }

  /** `parse_control_sequence` on the input starting at a control byte. */
  function ControlAt(s: seq<byte>): (c: Control)
    ensures c.outcome != Incomplete ==> |c.rest| < |s|
    ensures c.outcome == Incomplete ==> c.cmds == []
  {
    if s == [] then Control([], Incomplete, s)
    else if s[0] == BEL then Control([Bell], Parsed, s[1..])
    else if s[0] == BS then Control([Backspace], Parsed, s[1..])
    else if s[0] == HT then Control([Tab], Parsed, s[1..])
    else if s[0] == CR then Control([CarriageReturn], Parsed, s[1..])
    else if s[0] == LF then Control([LineFeed], Parsed, s[1..])
    else if s[0] == ESC then
      var c := EscapeSequence(s[1..]);
      if c.outcome == Incomplete then Control([], Incomplete, s) else c
    else Control([], Invalid, s[1..])
  }

  // ---------------------------------------------------------------- text

  /** `emit_text`: valid runs as text, invalid sequences reported, a truncated character returned. */
  function EmitText(b: seq<byte>): (d: Decoded)
    decreases |b|, 1
  {
    if b == [] then Decoded([], [])
    else if ValidUpTo(b) == |b| then Decoded([Text(DecodeString(b))], [])
    else EmitError(b)
  }

  /**
   * The `Err` arm of `emit_text`: the valid prefix as text, then either the
   * invalid sequence and the rest of the run, or the cut-off character as the
   * returned tail.
   */
  function EmitError(b: seq<byte>): (d: Decoded)
    requires ValidUpTo(b) < |b|
    decreases |b|, 0
  {
    var v := ValidUpTo(b);
    ValidPrefixIsValid(b);
    var text := Text(DecodeString(b[..v]));
    var st := StepAt(b[v..]);
    if st.Bad? then
      var more := EmitText(b[v + st.len..]);
      Decoded([text, InvalidUtf8(b[v..v + st.len])] + more.cmds, more.tail)
    else Decoded([text], b[v..])
  }

  // ---------------------------------------------------------------- parse

  /** The index of the first ASCII control byte of `s`, or `|s|`. */
  function FirstControl(s: seq<byte>): (k: nat)
    ensures k <= |s|
    ensures forall i | 0 <= i < k :: !IsAsciiControl(s[i])
    ensures k < |s| ==> IsAsciiControl(s[k])
    decreases |s|
  {
    if s == [] then 0
    else if IsAsciiControl(s[0]) then 0
    else 1 + FirstControl(s[1..])
  }

  /** The text before a control byte, with a cut-off character reported as invalid. */
  function TextBefore(text: seq<byte>): seq<Command> {
    var d := EmitText(text);
    d.cmds + (if d.tail == [] then [] else [InvalidUtf8(d.tail)])
  }

  /** `parse`: every command for `s`, in order, and the unconsumed tail. */
  function Parse(s: seq<byte>): (d: Decoded)
    decreases |s|, 1
  {
    var k := FirstControl(s);
    if k == |s| then EmitText(s)
    else
      var after := ParseControl(s[k..]);
      Decoded(TextBefore(s[..k]) + after.cmds, after.tail)
  }

  /**
   * One turn of `parse`'s loop at a control byte: the sequence starting
   * there, then parsing resumes after it; an incomplete sequence is returned
   * whole.
   */
  function ParseControl(s: seq<byte>): (d: Decoded)
    requires s != []
    decreases |s|, 0
  {
    var c := ControlAt(s);
    match c.outcome
    case Incomplete => Decoded([], s)
    case Parsed =>
      var more := Parse(c.rest);
      Decoded(c.cmds + more.cmds, more.tail)
    case Invalid =>
      var more := Parse(c.rest);
      Decoded(c.cmds + [InvalidControlSequence(s[..|s| - |c.rest|])] + more.cmds, more.tail)
  }
}
