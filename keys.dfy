/**
 * Keyboard input of `src/main.rs`: `Terminal::key_press` turns a key and its
 * modifier flags into the bytes written to the pseudo-terminal, and
 * `paste_clipboard` writes the clipboard text, stripped of escape characters
 * and, in bracketed-paste mode, framed by the paste markers.
 */
module Keys {

  import opened Primitives
  import Utf8

  /** The `Modifiers` bit flags. */
  datatype Modifiers = Modifiers(control: bool, shift: bool, alt: bool, super: bool)

  const EMPTY := Modifiers(false, false, false, false)
  const SHIFT := Modifiers(false, true, false, false)
  const SUPER := Modifiers(false, false, false, true)

  datatype Key =
    | Char(ch: char)
    | Escape
    | Enter
    | Backspace
    | Tab
    | Delete
    | ArrowUp
    | ArrowDown
    | ArrowRight
    | ArrowLeft

  /** What a key press leads to. */
  datatype Command =
    | Send(bytes: seq<byte>)
    | PasteClipboard
    | DecreaseFontSize
    | IncreaseFontSize
    | Ignored             // logged, and the terminal is not marked dirty

  const ESC: byte := 0x1B
  const ESC_CHAR: char := 0x1B as char

  /** `SWAP_SUPER_WITH_ALT`: the command key acts as ALT and the option key as SUPER. */
  function SwapSuperAlt(m: Modifiers): Modifiers {
    m.(super := m.alt, alt := m.super)
  }

  predicate IsAsciiAlphabetic(ch: char) {
    'a' <= ch <= 'z' || 'A' <= ch <= 'Z'
  }

  /** `u8::to_ascii_lowercase`. */
  function ToAsciiLowercase(b: byte): byte {
    if 'A' as int <= b <= 'Z' as int then b + 0x20 else b
  }

  /** The character key branch, on the modifiers after the swap. */
  function CharCommand(ch: char, m: Modifiers): Command {
    if m == EMPTY || m == SHIFT then Send(Utf8.Encode(ch))
    else if m.control && IsAsciiAlphabetic(ch) then
      Send([ToAsciiLowercase(ch as int) - 'a' as int + 1])
    else if m.alt && IsAsciiAlphabetic(ch) then Send([ESC, ch as int])
    else if m == SUPER && ch == 'v' then PasteClipboard
    else if m == SUPER && ch == '-' then DecreaseFontSize
    else if m == SUPER && ch == '=' then IncreaseFontSize
    else Ignored
  }

  /** `key_press`: the command for a key pressed with the physical modifiers `m`. */
  function Dispatch(key: Key, m: Modifiers): Command {
    var m := SwapSuperAlt(m);
    match key
    case Char(ch) => CharCommand(ch, m)
    case Escape => Send([ESC])
    case Enter => if m.alt then Send([ESC, '\r' as int]) else Send(['\r' as int])
    case Backspace => Send([0x08])
    case Tab => Send(['\t' as int])
    case Delete => Send([ESC, '[' as int, '3' as int, '~' as int])
    case ArrowUp => Send([ESC, '[' as int, 'A' as int])
    case ArrowDown => Send([ESC, '[' as int, 'B' as int])
    case ArrowRight => Send([ESC, '[' as int, 'C' as int])
    case ArrowLeft => Send([ESC, '[' as int, 'D' as int])
  }

  // ---------------------------------------------------------------- key lemmas

  /**
   * A character typed with no modifier or only SHIFT is sent as its UTF-8
   * encoding, which the receiving side decodes back to that one character.
   */
  lemma {:induction false} PlainCharacter(ch: char, m: Modifiers)
    requires !m.control && !m.alt && !m.super
    ensures Dispatch(Char(ch), m) == Send(Utf8.Encode(ch))
    ensures Utf8.IsValid(Dispatch(Char(ch), m).bytes)
    ensures Utf8.DecodeString(Dispatch(Char(ch), m).bytes) == [ch]
  {
    assert Dispatch(Char(ch), m) == Send(Utf8.Encode(ch)) by {
      assert SwapSuperAlt(m) == EMPTY || SwapSuperAlt(m) == SHIFT;
    }
    EncodeCharRoundTrip(ch);
  }

  /** One character's encoding is valid UTF-8 that decodes to that character. */
  lemma {:induction false} EncodeCharRoundTrip(ch: char)
    ensures Utf8.IsValid(Utf8.Encode(ch)) && Utf8.DecodeString(Utf8.Encode(ch)) == [ch]
  {
    var cs := [ch];
    assert Utf8.EncodeString(cs) == Utf8.Encode(ch) by {
      assert cs[1..] == [];
      assert Utf8.Encode(ch) + [] == Utf8.Encode(ch);
    }
    Utf8.EncodeStringValid(cs);
  }

  /**
   * CONTROL with a letter sends one C0 control byte: the letter's position in
   * the alphabet (1 for `a`, 26 for `z`), whatever the case and whatever else
   * is held, so it is never ESC and never NUL.
   */
  lemma {:induction false} ControlLetter(ch: char, m: Modifiers)
    requires m.control && IsAsciiAlphabetic(ch)
    ensures var c := Dispatch(Char(ch), m);
      && c.Send? && |c.bytes| == 1
      && 1 <= c.bytes[0] <= 26 && c.bytes[0] != ESC
      && (c.bytes[0] + 'a' as int - 1 == ch as int || c.bytes[0] + 'A' as int - 1 == ch as int)
  {
    assert SwapSuperAlt(m).control;
  }

  /** The CONTROL byte of a letter does not depend on its case. */
  lemma {:induction false} ControlIgnoresCase(lower: char, m: Modifiers)
    requires m.control && 'a' <= lower <= 'z'
    ensures Dispatch(Char((lower as int - 0x20) as char), m) == Dispatch(Char(lower), m)
  {
    var upper := (lower as int - 0x20) as char;
    assert 'A' <= upper <= 'Z';
    assert SwapSuperAlt(m).control;
  }

  /**
   * With the swap, the command key (SUPER) and a letter, without CONTROL,
   * sends ESC followed by the letter: the "meta" prefix.
   */
  lemma {:induction false} MetaLetter(ch: char, m: Modifiers)
    requires m.super && !m.control && IsAsciiAlphabetic(ch)
    ensures Dispatch(Char(ch), m) == Send([ESC, ch as int])
  {
    var s := SwapSuperAlt(m);
    assert s.alt && !s.control && s != EMPTY && s != SHIFT;
  }

  /** The option key (ALT) alone with `v`, `-` or `=` pastes or changes the font size. */
  lemma {:induction false} Shortcuts(m: Modifiers)
    requires m == Modifiers(false, false, true, false)
    ensures Dispatch(Char('v'), m) == PasteClipboard
    ensures Dispatch(Char('-'), m) == DecreaseFontSize
    ensures Dispatch(Char('='), m) == IncreaseFontSize
  {
    assert SwapSuperAlt(m) == SUPER;
  }

  /**
   * Exactly the character keys that fall through every branch are ignored:
   * held with some modifier other than SHIFT, not a letter under CONTROL or
   * the command key, and not one of the three option-key shortcuts.
   */
  lemma {:induction false} IgnoredExactly(key: Key, m: Modifiers)
    ensures Dispatch(key, m) == Ignored <==>
      && key.Char?
      && (m.control || m.alt || m.super)
      && !((m.control || m.super) && IsAsciiAlphabetic(key.ch))
      && !(m == Modifiers(false, false, true, false) && key.ch in {'v', '-', '='})
  {
    if key.Char? {
      var s := SwapSuperAlt(m);
      assert (s == EMPTY || s == SHIFT) <==> !(m.control || m.alt || m.super);
      assert s == SUPER <==> m == Modifiers(false, false, true, false);
    }
  }

  /**
   * The named keys are told apart by what they send: two different named
   * keys, pressed with the same modifiers, never produce the same bytes; only
   * Enter depends on the modifiers, taking the ESC prefix with the command key.
   */
  lemma {:induction false} FixedKeysDistinct(k1: Key, k2: Key, m: Modifiers)
    requires !k1.Char? && !k2.Char? && k1 != k2
    ensures Dispatch(k1, m).Send? && Dispatch(k2, m).Send?
    ensures Dispatch(k1, m).bytes != Dispatch(k2, m).bytes
  {
    var b1, b2 := Dispatch(k1, m).bytes, Dispatch(k2, m).bytes;
    assert |b1| != |b2| || b1[|b1| - 1] != b2[|b2| - 1];
  }

  /** Named keys other than Enter ignore the modifiers; Enter takes ESC with the command key. */
  lemma {:induction false} FixedKeysIgnoreModifiers(key: Key, m: Modifiers)
    requires !key.Char?
    ensures key != Enter ==> Dispatch(key, m) == Dispatch(key, EMPTY)
    ensures key == Enter ==> Dispatch(key, m).bytes == (if m.super then [ESC] else []) + ['\r' as int]
  {
    assert SwapSuperAlt(m).alt == m.super;
  }

  // ---------------------------------------------------------------- paste

  /** `str::replace('\x1b', "")`: the text with every ESC character removed. */
  function StripEscapes(text: seq<char>): (r: seq<char>)
    ensures |r| <= |text|
    ensures forall i | 0 <= i < |r| :: r[i] != ESC_CHAR
  {
    if text == [] then []
    else if text[0] == ESC_CHAR then StripEscapes(text[1..])
    else [text[0]] + StripEscapes(text[1..])
  }

  /** Stripping works piecewise: it distributes over concatenation. */
  lemma {:induction false} StripEscapesAppend(a: seq<char>, b: seq<char>)
    ensures StripEscapes(a + b) == StripEscapes(a) + StripEscapes(b)
    decreases |a|
  {
    if a != [] {
      assert (a + b)[0] == a[0];
      assert (a + b)[1..] == a[1..] + b;
      StripEscapesAppend(a[1..], b);
      if a[0] != ESC_CHAR {
        assert StripEscapes(a + b) == [a[0]] + (StripEscapes(a[1..]) + StripEscapes(b));
      }
    } else {
      assert a + b == b;
    }
  }

  /** A text without ESC is left as it is; in particular stripping is idempotent. */
  lemma {:induction false} StripEscapesKeeps(text: seq<char>)
    requires forall i | 0 <= i < |text| :: text[i] != ESC_CHAR
    ensures StripEscapes(text) == text
    decreases |text|
  {
    if text != [] {
      StripEscapesKeeps(text[1..]);
    }
  }

  /** Every character other than ESC survives stripping the same number of times. */
  lemma {:induction false} StripEscapesCounts(text: seq<char>, c: char)
    requires c != ESC_CHAR
    ensures multiset(StripEscapes(text))[c] == multiset(text)[c]
    decreases |text|
  {
    if text != [] {
      StripEscapesCounts(text[1..], c);
      assert text == [text[0]] + text[1..];
    }
  }

  const PASTE_START: seq<byte> := [ESC, '[' as int, '2' as int, '0' as int, '0' as int, '~' as int]
  const PASTE_END: seq<byte> := [ESC, '[' as int, '2' as int, '0' as int, '1' as int, '~' as int]

  /** What `paste_clipboard` sends for a clipboard text. */
  function PasteBytes(clipboard: seq<char>, bracketed: bool): seq<byte> {
    var payload := Utf8.EncodeString(StripEscapes(clipboard));
    if bracketed then PASTE_START + payload + PASTE_END else payload
  }

  /** The encoding of a text without ESC has no ESC byte. */
  lemma {:induction false} EncodedWithoutEscape(cs: seq<char>)
    requires forall i | 0 <= i < |cs| :: cs[i] != ESC_CHAR
    ensures forall i | 0 <= i < |Utf8.EncodeString(cs)| :: Utf8.EncodeString(cs)[i] != ESC
  {
    forall i | 0 <= i < |Utf8.EncodeString(cs)| ensures Utf8.EncodeString(cs)[i] != ESC {
      if Utf8.EncodeString(cs)[i] < 0x80 {
        Utf8.AsciiByteOfEncoding(cs, i);
        var j :| 0 <= j < |cs| && cs[j] as int == Utf8.EncodeString(cs)[i];
        assert cs[j] != ESC_CHAR;
      }
    }
  }

  /**
   * The pasted payload decodes to the clipboard text without its ESC
   * characters and contains no ESC byte, so in bracketed mode the only ESC
   * bytes sent are the two markers' and the pasted text cannot end the
   * bracket early.
   */
  lemma {:induction false} PasteIsFramed(clipboard: seq<char>, bracketed: bool)
    ensures var payload := Utf8.EncodeString(StripEscapes(clipboard));
      && Utf8.IsValid(payload)
      && Utf8.DecodeString(payload) == StripEscapes(clipboard)
      && (forall i | 0 <= i < |payload| :: payload[i] != ESC)
    ensures var r := PasteBytes(clipboard, bracketed);
      bracketed ==>
        && r[..6] == PASTE_START && r[|r| - 6..] == PASTE_END
        && forall i | 0 < i < |r| - 6 :: r[i] != ESC
  {
    var text := StripEscapes(clipboard);
    var payload := Utf8.EncodeString(text);
    Utf8.EncodeStringValid(text);
    EncodedWithoutEscape(text);
    if bracketed {
      var r := PasteBytes(clipboard, bracketed);
      assert r[..6] == PASTE_START;
      assert r[|r| - 6..] == PASTE_END;
      forall i | 0 < i < |r| - 6 ensures r[i] != ESC {
        if i >= 6 {
          assert r[i] == payload[i - 6];
        }
      }
    }
  }

  // ---------------------------------------------------------------- the terminal

  /**
   * The part of `Terminal` that keyboard input touches: the bytes written to
   * the pseudo-terminal so far and the flag that asks for a redraw.
   */
  class Terminal {
    var sent: seq<byte>
    var dirty: bool

    /** `Terminal::new`: nothing sent yet, and the first frame still to be drawn. */
    constructor()
      ensures sent == [] && dirty
    {
      sent := [];
      dirty := true;
    }

    /** `paste_clipboard`: nothing happens when the clipboard holds no text. */
    method PasteFromClipboard(clipboard: Option<seq<char>>, bracketedPaste: bool)
      modifies this
      ensures clipboard.None? ==> sent == old(sent)
      ensures clipboard.Some? ==> sent == old(sent) + PasteBytes(clipboard.value, bracketedPaste)
      ensures dirty == old(dirty)
    {
      if clipboard.Some? {
        var escaped := StripEscapes(clipboard.value);
        var bytes := Utf8.EncodeString(escaped);
        if bracketedPaste {
          sent := sent + PASTE_START;
          sent := sent + bytes;
          sent := sent + PASTE_END;
        } else {
          sent := sent + bytes;
        }
      }
    }

    /**
     * `key_press`: sends the key's bytes or runs its shortcut, then marks the
     * terminal dirty, except for an ignored combination, which changes nothing.
     */
    method KeyPress(key: Key, modifiers: Modifiers, clipboard: Option<seq<char>>, bracketedPaste: bool)
      modifies this
      ensures var c := Dispatch(key, modifiers);
        && (c.Send? ==> sent == old(sent) + c.bytes)
        && (c.PasteClipboard? && clipboard.Some? ==> sent == old(sent) + PasteBytes(clipboard.value, bracketedPaste))
        && (!c.Send? && !(c.PasteClipboard? && clipboard.Some?) ==> sent == old(sent))
        && dirty == (old(dirty) || !c.Ignored?)
    {
      var command := Dispatch(key, modifiers);
      match command {
        case Send(bytes) =>
          sent := sent + bytes;
        case PasteClipboard =>
          PasteFromClipboard(clipboard, bracketedPaste);
        case DecreaseFontSize =>
        case IncreaseFontSize =>
        case Ignored =>
          return;
      }
      dirty := true;
    }
  }
}
