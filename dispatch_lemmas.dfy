/**
 * Properties of the command dispatch of control sequences: the Select Graphic
 * Rendition codes of section 8.3.117 of ECMA-48 as `parse_character_attribute`
 * reads them, the erase codes of `J` and `K`, and the DEC private toggles
 * `?1` and `?2004`.
 */
module DispatchProperties {
  import opened Primitives
  import opened Colors
  import opened ControlCode

  // ---------------------------------------------------------------- SGR codes

  /** The SGR codes the decoder knows. */
  predicate KnownSgrCode(code: u16) {
    || code == 0 || code == 39 || code == 49
    || (1 <= code <= 9 && code != 6)
    || (21 <= code <= 29 && code != 26)
    || (30 <= code <= 37) || (40 <= code <= 47)
    || (90 <= code <= 97) || (100 <= code <= 107)
  }

  /** A code is handled exactly when it is one of the known codes; everything else is `Invalid`. */
  lemma {:induction false} SgrCodeKnown(code: u16)
    ensures SgrCode(code).Some? <==> KnownSgrCode(code)
  {
    if KnownSgrCode(code) {
      if 1 <= code <= 9 || 21 <= code <= 29 {
        assert code != 6 && code != 26;
      }
    }
  }

  /**
   * The style a rendition code selects, in the order of ECMA-48: bold (1),
   * faint (2), italic (3), underline (4), blink (5), negative image (7),
   * concealed (8), crossed-out (9).
   */
  function StyleOfCode(code: u16): Styles
    requires 1 <= code <= 9 && code != 6
  {
    match code
    case 1 => BOLD
    case 2 => FAINT
    case 3 => ITALIC
    case 4 => UNDERLINE
    case 5 => BLINK
    case 7 => INVERSE
    case 8 => INVISIBLE
    case 9 => STRIKETHROUGH
  }

  /** Each style is a single bit of the style byte, and different codes select different bits. */
  lemma {:induction false} StyleBits(code: u16, other: u16)
    requires 1 <= code <= 9 && code != 6
    requires 1 <= other <= 9 && other != 6
    ensures StyleOfCode(code) != 0 && StyleOfCode(code) & (StyleOfCode(code) - 1) == 0
    ensures code != other ==> StyleOfCode(code) & StyleOfCode(other) == 0
  {
  }

  /** Codes 1–5 and 7–9 set their style; the same code plus 20 resets that same style. */
  lemma {:induction false} SgrStylePairs(code: u16)
    requires 1 <= code <= 9 && code != 6
    ensures SgrCode(code) == Some([SetCharacterStyle(StyleOfCode(code))])
    ensures SgrCode(code + 20) == Some([ResetCharacterStyle(StyleOfCode(code))])
  {
  }

  /**
   * Colour codes: 30–37 and 90–97 pick foreground palette entries 0–7, 100–107
   * background entries 0–7, while 40–47 pick background entries 10–17 (the
   * source subtracts 30, not 40); 39 and 49 go back to the defaults.
   */
  lemma {:induction false} SgrColors(code: u16)
    ensures 30 <= code <= 37 ==> SgrCode(code) == Some([SetForegroundColor(Index(code - 30))])
    ensures 90 <= code <= 97 ==> SgrCode(code) == Some([SetForegroundColor(Index(code - 90))])
    ensures 40 <= code <= 47 ==> SgrCode(code) == Some([SetBackgroundColor(Index(code - 30))])
    ensures 100 <= code <= 107 ==> SgrCode(code) == Some([SetBackgroundColor(Index(code - 100))])
    ensures code == 39 ==> SgrCode(code) == Some([ResetForegroundColor])
    ensures code == 49 ==> SgrCode(code) == Some([ResetBackgroundColor])
    ensures SgrCode(code).Some? && code != 0 ==> |SgrCode(code).value| == 1
  {
  }

  const RESET_ALL: seq<Command> := [ResetCharacterStyle(ALL_STYLES), ResetForegroundColor, ResetBackgroundColor]

  /** Code 0 resets every style and both colours. */
  lemma {:induction false} SgrResetAll()
    ensures SgrCode(0) == Some(RESET_ALL)
    ensures ALL_STYLES == BOLD | FAINT | ITALIC | UNDERLINE | BLINK | INVERSE | INVISIBLE | STRIKETHROUGH
  {
  }

  // ---------------------------------------------------------------- SGR groups

  /** What one `;`-group contributes: the commands of its first argument's code, or `None` when it is invalid. */
  function GroupCommands(group: seq<byte>): Option<seq<Command>> {
    match FirstListed(group)
    case None => None
    case Some(a) => SgrCode(WithDefault(a, 0))
  }

  /** The commands of the groups, concatenated, if every group is valid. */
  function AllGroups(groups: seq<seq<byte>>): Option<seq<Command>> {
    if groups == [] then Some([])
    else
      match GroupCommands(groups[0])
      case None => None
      case Some(cmds) =>
        match AllGroups(groups[1..])
        case None => None
        case Some(more) => Some(cmds + more)
  }

  /** When every group is valid, SGR succeeds with the groups' commands in order. */
  lemma {:induction false} SgrAllValid(groups: seq<seq<byte>>)
    requires AllGroups(groups).Some?
    ensures SgrGroups(groups) == Reply(AllGroups(groups).value, true)
    decreases |groups|
  {
    if groups != [] {
      SgrAllValid(groups[1..]);
    }
  }

  /**
   * SGR is not atomic: when group `j` is the first invalid one, the commands
   * of the groups before it have already been emitted, and the sequence is
   * then reported invalid.
   */
  lemma {:induction false} SgrStopsAtFirstInvalid(groups: seq<seq<byte>>, j: nat)
    requires j < |groups| && AllGroups(groups[..j]).Some? && GroupCommands(groups[j]).None?
    ensures SgrGroups(groups) == Reply(AllGroups(groups[..j]).value, false)
    decreases j
  {
    if j == 0 {
    } else {
      assert groups[1..][..j - 1] == groups[..j][1..];
      assert groups[1..][j - 1] == groups[j];
      SgrStopsAtFirstInvalid(groups[1..], j - 1);
    }
  }

  /** `CSI m` with no parameters, and `CSI 0 m`, reset everything. */
  lemma {:induction false} EmptySgrResets()
    ensures CharacterAttribute([]) == Reply(RESET_ALL, true)
    ensures CharacterAttribute([0x30]) == Reply(RESET_ALL, true)
  {
    var empty: seq<byte> := [];
    var zero: seq<byte> := [0x30];
    assert Split(empty, {SEMICOLON}) == [empty];
    assert FirstListed(empty) == Some(Argument(0));
    assert Split(zero, {SEMICOLON}) == [zero];
    assert zero[1..] == empty;
    assert SingleFrom(zero, 0) == Some(0);
    assert FirstListed(zero) == Some(Argument(0));
    assert SgrGroups([empty][1..]) == Reply([], true);
    assert SgrGroups([zero][1..]) == Reply([], true);
    assert RESET_ALL + [] == RESET_ALL;
  }

  // ---------------------------------------------------------------- J, K and the toggles

  /** `CSI n J`: 0, 1 and 2 clear part or all of the screen, 3 the scrollback; nothing else is accepted. */
  lemma {:induction false} EraseInDisplay(p: seq<byte>)
    ensures var r := StandardTerminator(p, 0x4A);
      && (r.ok <==> SingleOr(p, 0).Some? && SingleOr(p, 0).value <= 3)
      && (SingleOr(p, 0) == Some(0) ==> r.cmds == [ClearScreen(ToEnd)])
      && (SingleOr(p, 0) == Some(1) ==> r.cmds == [ClearScreen(ToStart)])
      && (SingleOr(p, 0) == Some(2) ==> r.cmds == [ClearScreen(All)])
      && (SingleOr(p, 0) == Some(3) ==> r.cmds == [ClearScrollback])
      && (!r.ok ==> r.cmds == [])
  {
  }

  /** `CSI n K`: 0, 1 and 2 clear part or all of the line; nothing else is accepted. */
  lemma {:induction false} EraseInLine(p: seq<byte>)
    ensures var r := StandardTerminator(p, 0x4B);
      && (r.ok <==> SingleOr(p, 0).Some? && SingleOr(p, 0).value <= 2)
      && (SingleOr(p, 0) == Some(0) ==> r.cmds == [ClearLine(ToEnd)])
      && (SingleOr(p, 0) == Some(1) ==> r.cmds == [ClearLine(ToStart)])
      && (SingleOr(p, 0) == Some(2) ==> r.cmds == [ClearLine(All)])
      && (!r.ok ==> r.cmds == [])
  {
  }

  /** `CSI ? 1 h/l` toggles the application cursor, `CSI ? 2004 h/l` bracketed paste; anything else is invalid. */
  lemma {:induction false} PrivateToggles(p: seq<byte>, terminator: byte)
    ensures var r := QuestionTerminator(p, terminator);
      && (r.ok <==> (terminator == 0x68 || terminator == 0x6C) &&
                    (SingleOr(p, 0) == Some(1) || SingleOr(p, 0) == Some(2004)))
      && (r.ok ==> |r.cmds| == 1)
      && (r.ok && SingleOr(p, 0) == Some(1) ==>
            r.cmds[0] == SetApplicationCursor(if terminator == 0x68 then Enable else Disable))
      && (r.ok && SingleOr(p, 0) == Some(2004) ==>
            r.cmds[0] == SetBracketedPaste(if terminator == 0x68 then Enable else Disable))
      && (!r.ok ==> r.cmds == [])
  {
  }

  /** Only `m`, `A`–`D`, `H`, `J` and `K` are standard final bytes; a private `?` sequence only ends in `h` or `l`. */
  lemma {:induction false} KnownFinalBytes(p: seq<byte>, terminator: byte)
    ensures ControlSequenceDispatch(p, terminator).ok ==>
      if p != [] && p[0] == QUESTION then terminator == 0x68 || terminator == 0x6C
      else terminator in {0x6D, 0x41, 0x42, 0x43, 0x44, 0x48, 0x4A, 0x4B}
  {
  }
}
