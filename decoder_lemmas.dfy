/**
 * Properties of the decoder as a whole: the framing of control sequences,
 * their stability when more input arrives, the single-byte controls, the
 * accounting of text runs, and what the unconsumed tail can be.
 */
module DecoderProperties {
  import opened Primitives
  import opened Utf8
  import opened ControlCode

  // ---------------------------------------------------------------- take_while

  /** `take_while` stops at the first byte outside the range, wherever that is. */
  lemma {:induction false} TakeWhileIs(s: seq<byte>, lo: byte, hi: byte, n: nat)
    requires n < |s| && !(lo <= s[n] <= hi)
    requires forall k | 0 <= k < n :: lo <= s[k] <= hi
    ensures TakeWhileIn(s, lo, hi) == Some(n)
    decreases n
  {
    if n > 0 {
      TakeWhileIs(s[1..], lo, hi, n - 1);
    }
  }

  /** Once `take_while` has found its stopping byte, more input does not change its answer. */
  lemma {:induction false} TakeWhileExtend(s: seq<byte>, t: seq<byte>, lo: byte, hi: byte)
    requires TakeWhileIn(s, lo, hi).Some?
    ensures TakeWhileIn(s + t, lo, hi) == TakeWhileIn(s, lo, hi)
  {
    var n := TakeWhileIn(s, lo, hi).value;
    TakeWhileInStops(s, lo, hi);
    TakeWhileIs(s + t, lo, hi, n);
  }

  /** The fields of a framed input are the only way to cut it into such runs. */
  lemma {:induction false} TakeFieldsIs(first: seq<byte>, second: seq<byte>, terminator: byte, rest: seq<byte>,
                     lo1: byte, hi1: byte, lo2: byte, hi2: byte)
    requires forall k | 0 <= k < |first| :: lo1 <= first[k] <= hi1
    requires forall k | 0 <= k < |second| :: lo2 <= second[k] <= hi2
    requires !(lo2 <= terminator <= hi2)
    requires second == [] ==> !(lo1 <= terminator <= hi1)
    requires second != [] ==> !(lo1 <= second[0] <= hi1)
    ensures TakeFields(first + second + [terminator] + rest, lo1, hi1, lo2, hi2) == Fields(first, second, terminator, rest)
  {
    var s := first + second + [terminator] + rest;
    var n1 := |first|;
    assert TakeWhileIn(s, lo1, hi1) == Some(n1) by {
      assert s[n1] == if second == [] then terminator else second[0];
      assert forall k | 0 <= k < n1 :: s[k] == first[k];
      TakeWhileIs(s, lo1, hi1, n1);
    }
    var u := s[n1..];
    assert u == second + [terminator] + rest;
    assert TakeWhileIn(u, lo2, hi2) == Some(|second|) by {
      assert u[|second|] == terminator;
      assert forall k | 0 <= k < |second| :: u[k] == second[k];
      TakeWhileIs(u, lo2, hi2, |second|);
    }
    assert s[..n1] == first;
    assert u[..|second|] == second;
    assert u[|second| + 1..] == rest;
  }

  /** Once both runs have ended, more input only lengthens what is left. */
  lemma {:induction false} TakeFieldsExtend(s: seq<byte>, t: seq<byte>, lo1: byte, hi1: byte, lo2: byte, hi2: byte)
    requires TakeFields(s, lo1, hi1, lo2, hi2).Fields?
    ensures var f := TakeFields(s, lo1, hi1, lo2, hi2);
      TakeFields(s + t, lo1, hi1, lo2, hi2) == Fields(f.first, f.second, f.terminator, f.rest + t)
  {
    var f := TakeFields(s, lo1, hi1, lo2, hi2);
    TakeFieldsRanges(s, lo1, hi1, lo2, hi2);
    var n1 := |f.first|;
    if f.second != [] {
      TakeWhileInStops(s, lo1, hi1);
      assert f.second[0] == s[n1];
    }
    assert s + t == f.first + f.second + [f.terminator] + (f.rest + t);
    TakeFieldsIs(f.first, f.second, f.terminator, f.rest + t, lo1, hi1, lo2, hi2);
  }

  // ---------------------------------------------------------------- CSI framing

  /**
   * The bytes after `ESC [` can still grow into a control sequence: all are
   * parameter or intermediate bytes, and no parameter byte follows an
   * intermediate one.
   */
  predicate CsiPrefix(s: seq<byte>) {
    && (forall k | 0 <= k < |s| :: 0x20 <= s[k] <= 0x3F)
    && (forall i, j | 0 <= i < j < |s| :: IsIntermediateByte(s[i]) ==> IsIntermediateByte(s[j]))
  }

  /** A framed CSI input is not a `CsiPrefix`: its terminator is no intermediate byte, and no parameter byte either unless an intermediate one came first. */
  lemma {:induction false} CsiFieldsNotPrefix(s: seq<byte>)
    requires TakeFields(s, 0x30, 0x3F, 0x20, 0x2F).Fields?
    ensures !CsiPrefix(s)
  {
    var f := TakeFields(s, 0x30, 0x3F, 0x20, 0x2F);
    TakeFieldsRanges(s, 0x30, 0x3F, 0x20, 0x2F);
    var n := |f.first| + |f.second|;
    assert s[n] == f.terminator;
    if f.second != [] {
      assert s[|f.first|] == f.second[0];
    }
  }

  /** When the CSI runs reach the end of the input, the input is a `CsiPrefix`. */
  lemma {:induction false} CsiCutIsPrefix(s: seq<byte>)
    requires TakeFields(s, 0x30, 0x3F, 0x20, 0x2F).Cut?
    ensures CsiPrefix(s)
  {
    TakeWhileInStops(s, 0x30, 0x3F);
    match TakeWhileIn(s, 0x30, 0x3F)
    case None =>
    case Some(n1) =>
      var u := s[n1..];
      TakeWhileInStops(u, 0x20, 0x2F);
      forall i, j | 0 <= i < j < |s| && IsIntermediateByte(s[i]) ensures IsIntermediateByte(s[j]) {
        assert s[j] == u[j - n1];
      }
      forall k | 0 <= k < |s| ensures 0x20 <= s[k] <= 0x3F {
        if k >= n1 { assert s[k] == u[k - n1]; }
      }
  }

  /** A control sequence is incomplete exactly when the input ends before its final byte. */
  lemma {:induction false} CsiIncomplete(s: seq<byte>)
    ensures ControlSequence(s).outcome == Incomplete <==> CsiPrefix(s)
  {
    if TakeFields(s, 0x30, 0x3F, 0x20, 0x2F).Cut? {
      CsiCutIsPrefix(s);
    } else {
      CsiFieldsNotPrefix(s);
    }
  }

  /**
   * ECMA-48 framing: parameter bytes `params`, intermediate bytes `inter`,
   * then a byte `t` that ends both runs. The iterator resumes right after `t`;
   * any intermediate byte, or a `t` outside 0x40..=0x7E, makes the sequence
   * invalid, and otherwise the parameters and `t` pick the command.
   */
  lemma {:induction false} CsiFraming(params: seq<byte>, inter: seq<byte>, t: byte, rest: seq<byte>)
    requires forall k | 0 <= k < |params| :: IsParameterByte(params[k])
    requires forall k | 0 <= k < |inter| :: IsIntermediateByte(inter[k])
    requires !IsIntermediateByte(t) && (inter == [] ==> !IsParameterByte(t))
    ensures var c := ControlSequence(params + inter + [t] + rest);
      && c.rest == rest
      && (inter != [] || !IsFinalByte(t) ==> c == Control([], Invalid, rest))
      && (inter == [] && IsFinalByte(t) ==> c == Finish(ControlSequenceDispatch(params, t), rest))
  {
    TakeFieldsIs(params, inter, t, rest, 0x30, 0x3F, 0x20, 0x2F);
  }

  /** An OSC is incomplete exactly when every byte after `ESC ]` is printable ASCII (no terminator yet). */
  lemma {:induction false} OscIncomplete(s: seq<byte>)
    ensures OperatingSystemCommand(s).outcome == Incomplete <==> forall k | 0 <= k < |s| :: 0x20 <= s[k] <= 0x7E
  {
    var f := TakeFields(s, 0x30, 0x39, 0x20, 0x7E);
    if f.Fields? {
      TakeFieldsRanges(s, 0x30, 0x39, 0x20, 0x7E);
      assert s[|f.first| + |f.second|] == f.terminator;
    } else {
      TakeWhileInStops(s, 0x30, 0x39);
      match TakeWhileIn(s, 0x30, 0x39)
      case None =>
      case Some(n1) =>
        var u := s[n1..];
        TakeWhileInStops(u, 0x20, 0x7E);
        forall k | 0 <= k < |s| ensures 0x20 <= s[k] <= 0x7E {
          if k >= n1 { assert s[k] == u[k - n1]; }
        }
    }
  }

  /**
   * An OSC: digits, then printable parameter bytes, then the byte that ended
   * them. Only BEL terminates it; the parameters must start with `;` and not be
   * `;?`; codes 0 and 2 set the window title to the text after `;`, 1 and 3 do
   * nothing, and anything else is invalid.
   */
  lemma {:induction false} OscFraming(numbers: seq<byte>, parameters: seq<byte>, t: byte, rest: seq<byte>)
    requires forall k | 0 <= k < |numbers| :: IsDigit(numbers[k])
    requires forall k | 0 <= k < |parameters| :: 0x20 <= parameters[k] <= 0x7E
    requires parameters != [] ==> !IsDigit(parameters[0])
    requires !(0x20 <= t <= 0x7E)
    ensures var c := OperatingSystemCommand(numbers + parameters + [t] + rest);
      && c.rest == rest
      && (t != BEL ==> c == Control([], Invalid, rest))
      && (t == BEL ==> c == Finish(OscDispatch(numbers, parameters), rest))
  {
    TakeFieldsIs(numbers, parameters, t, rest, 0x30, 0x39, 0x20, 0x7E);
  }

  /** The outcomes of a BEL-terminated OSC, by code. */
  lemma {:induction false} OscCodes(numbers: seq<byte>, text: seq<byte>)
    requires text != [QUESTION]
    ensures var r := OscDispatch(numbers, [SEMICOLON] + text);
      && (SingleOr(numbers, 0) == Some(0) || SingleOr(numbers, 0) == Some(2) ==>
            r == Reply([SetWindowTitle(AsciiText(text))], true))
      && (SingleOr(numbers, 0) == Some(1) || SingleOr(numbers, 0) == Some(3) ==> r == Reply([], true))
      && (r.ok ==> SingleOr(numbers, 0).Some? && SingleOr(numbers, 0).value <= 3)
    ensures OscDispatch(numbers, [SEMICOLON, QUESTION]) == Reply([], false)
    ensures forall p | p == [] || p[0] != SEMICOLON :: OscDispatch(numbers, p) == Reply([], false)
  {
    assert ([SEMICOLON] + text)[1..] == text;
    assert [SEMICOLON, QUESTION][1..] == [QUESTION];
  }

  // ---------------------------------------------------------------- more input

  lemma {:induction false} ControlSequenceExtend(s: seq<byte>, t: seq<byte>)
    requires ControlSequence(s).outcome != Incomplete
    ensures var c := ControlSequence(s);
      ControlSequence(s + t) == Control(c.cmds, c.outcome, c.rest + t)
  {
    TakeFieldsExtend(s, t, 0x30, 0x3F, 0x20, 0x2F);
  }

  lemma {:induction false} OperatingSystemCommandExtend(s: seq<byte>, t: seq<byte>)
    requires OperatingSystemCommand(s).outcome != Incomplete
    ensures var c := OperatingSystemCommand(s);
      OperatingSystemCommand(s + t) == Control(c.cmds, c.outcome, c.rest + t)
  {
    TakeFieldsExtend(s, t, 0x30, 0x39, 0x20, 0x7E);
  }

  lemma {:induction false} EscapeSequenceExtend(s: seq<byte>, t: seq<byte>)
    requires EscapeSequence(s).outcome != Incomplete
    ensures var c := EscapeSequence(s);
      EscapeSequence(s + t) == Control(c.cmds, c.outcome, c.rest + t)
  {
    assert (s + t)[0] == s[0];
    assert (s + t)[1..] == s[1..] + t;
    if s[0] == 0x5B {
      ControlSequenceExtend(s[1..], t);
    } else if s[0] == 0x5D {
      OperatingSystemCommandExtend(s[1..], t);
    } else if s[0] == 0x28 {
      assert (s + t)[2..] == s[2..] + t;
    }
  }

  /**
   * A control sequence that is complete (parsed or invalid) decodes the same
   * way whatever bytes follow it: more input only lengthens what is left.
   */
  lemma {:induction false} ControlAtExtend(s: seq<byte>, t: seq<byte>)
    requires ControlAt(s).outcome != Incomplete
    ensures var c := ControlAt(s);
      ControlAt(s + t) == Control(c.cmds, c.outcome, c.rest + t)
  {
    assert (s + t)[0] == s[0];
    assert (s + t)[1..] == s[1..] + t;
    if s[0] == ESC {
      EscapeSequenceExtend(s[1..], t);
    }
  }

  /** An incomplete control sequence was incomplete at every shorter length too. */
  lemma {:induction false} IncompleteStaysPending(s: seq<byte>, t: seq<byte>)
    requires ControlAt(s + t).outcome == Incomplete
    ensures ControlAt(s).outcome == Incomplete
  {
    if ControlAt(s).outcome != Incomplete {
      ControlAtExtend(s, t);
    }
  }

  lemma {:induction false} TakeFieldsSuffix(s: seq<byte>, lo1: byte, hi1: byte, lo2: byte, hi2: byte)
    requires TakeFields(s, lo1, hi1, lo2, hi2).Fields?
    ensures IsSuffix(TakeFields(s, lo1, hi1, lo2, hi2).rest, s)
  {
    var f := TakeFields(s, lo1, hi1, lo2, hi2);
    var head := f.first + f.second + [f.terminator];
    assert s == head + f.rest;
    assert s[|head|..] == f.rest;
  }

  lemma {:induction false} SuffixOfTail(r: seq<byte>, s: seq<byte>)
    requires s != [] && IsSuffix(r, s[1..])
    ensures IsSuffix(r, s)
  {
    assert s[|s| - |r|..] == s[1..][|s[1..]| - |r|..];
  }

  lemma {:induction false} ControlSequenceSuffix(s: seq<byte>)
    requires ControlSequence(s).outcome != Incomplete
    ensures IsSuffix(ControlSequence(s).rest, s)
  {
    TakeFieldsSuffix(s, 0x30, 0x3F, 0x20, 0x2F);
  }

  lemma {:induction false} OperatingSystemCommandSuffix(s: seq<byte>)
    requires OperatingSystemCommand(s).outcome != Incomplete
    ensures IsSuffix(OperatingSystemCommand(s).rest, s)
  {
    TakeFieldsSuffix(s, 0x30, 0x39, 0x20, 0x7E);
  }

  lemma {:induction false} EscapeSequenceSuffix(s: seq<byte>)
    requires EscapeSequence(s).outcome != Incomplete
    ensures IsSuffix(EscapeSequence(s).rest, s)
  {
    if s[0] == 0x5B {
      ControlSequenceSuffix(s[1..]);
      SuffixOfTail(EscapeSequence(s).rest, s);
    } else if s[0] == 0x5D {
      OperatingSystemCommandSuffix(s[1..]);
      SuffixOfTail(EscapeSequence(s).rest, s);
    } else if s[0] == 0x28 {
      assert s[2..] == s[|s| - |s[2..]|..];
    } else {
      assert s[1..] == s[|s| - |s[1..]|..];
    }
  }

  /** What the iterator still holds is a suffix of its input: the bytes of a sequence are consumed from the front. */
  lemma {:induction false} ControlAtSuffix(s: seq<byte>)
    requires ControlAt(s).outcome != Incomplete
    ensures IsSuffix(ControlAt(s).rest, s)
  {
    var r := ControlAt(s).rest;
    if s[0] == ESC {
      EscapeSequenceSuffix(s[1..]);
      SuffixOfTail(r, s);
    } else {
      assert r == s[1..];
      assert s[|s| - |r|..] == s[1..];
    }
  }

  // ---------------------------------------------------------------- single bytes

  /** The command of a C0 control byte the decoder acts on directly. */
  function C0Command(b: byte): Option<Command> {
    if b == BEL then Some(Bell)
    else if b == BS then Some(Backspace)
    else if b == HT then Some(Tab)
    else if b == CR then Some(CarriageReturn)
    else if b == LF then Some(LineFeed)
    else None
  }

  /** Parsing input that starts with a control byte: that sequence's commands, then the rest. */
  lemma {:induction false} ParseAtControl(s: seq<byte>)
    requires s != [] && IsAsciiControl(s[0])
    ensures ControlAt(s).outcome == Incomplete ==> Parse(s).cmds == [] && Parse(s).tail == s
    ensures ControlAt(s).outcome == Parsed ==>
      Parse(s).cmds == ControlAt(s).cmds + Parse(ControlAt(s).rest).cmds &&
      Parse(s).tail == Parse(ControlAt(s).rest).tail
    ensures ControlAt(s).outcome == Invalid ==>
      Parse(s).cmds == ControlAt(s).cmds + [InvalidControlSequence(s[..|s| - |ControlAt(s).rest|])]
                       + Parse(ControlAt(s).rest).cmds &&
      Parse(s).tail == Parse(ControlAt(s).rest).tail
  {
    assert FirstControl(s) == 0;
    assert s[..0] == [] && s[0..] == s;
    assert TextBefore(s[..0]) == [];
    assert TextBefore(s[..0]) + ControlAt(s).cmds == ControlAt(s).cmds;
  }

  /** BEL, BS, HT, CR and LF each produce their one command and nothing else. */
  lemma {:induction false} SingleByteControl(b: byte, s: seq<byte>)
    requires C0Command(b).Some?
    ensures Parse([b] + s).cmds == [C0Command(b).value] + Parse(s).cmds
    ensures Parse([b] + s).tail == Parse(s).tail
  {
    var input := [b] + s;
    assert input[1..] == s;
    ParseAtControl(input);
  }

  /** Any other control byte except ESC, DEL included, is reported alone as an invalid sequence. */
  lemma {:induction false} OtherControlByte(b: byte, s: seq<byte>)
    requires IsAsciiControl(b) && C0Command(b).None? && b != ESC
    ensures Parse([b] + s).cmds == [InvalidControlSequence([b])] + Parse(s).cmds
    ensures Parse([b] + s).tail == Parse(s).tail
  {
    var input := [b] + s;
    assert input[1..] == s;
    assert ControlAt(input) == Control([], Invalid, s);
    assert input[..|input| - |s|] == [b];
    ParseAtControl(input);
    assert [] + [InvalidControlSequence([b])] == [InvalidControlSequence([b])];
  }

  /** ESC followed by anything but `[`, `]` or `(` is reported as those two bytes, and scanning resumes after them. */
  lemma {:induction false} UnknownEscape(x: byte, s: seq<byte>)
    requires x != 0x5B && x != 0x5D && x != 0x28
    ensures Parse([ESC, x] + s).cmds == [InvalidControlSequence([ESC, x])] + Parse(s).cmds
    ensures Parse([ESC, x] + s).tail == Parse(s).tail
  {
    var input := [ESC, x] + s;
    assert input[1..] == [x] + s;
    assert ([x] + s)[1..] == s;
    ParseAtControl(input);
    assert input[..|input| - |s|] == [ESC, x];
  }

  /** `ESC (` swallows exactly one more byte (the character set designator) and emits nothing. */
  lemma {:induction false} CharsetDesignation(x: byte, s: seq<byte>)
    ensures Parse([ESC, 0x28, x] + s) == Parse(s)
    ensures Parse([ESC, 0x28]).cmds == [] && Parse([ESC, 0x28]).tail == [ESC, 0x28]
  {
    var input := [ESC, 0x28, x] + s;
    assert input[1..] == [0x28, x] + s;
    assert ([0x28, x] + s)[2..] == s;
    ParseAtControl(input);
    ParseAtControl([ESC, 0x28]);
  }

  // ---------------------------------------------------------------- text runs

  predicate ControlFree(b: seq<byte>) {
    forall k | 0 <= k < |b| :: !IsAsciiControl(b[k])
  }

  predicate IsControlChar(c: char) {
    (c as int) < 0x20 || c as int == 0x7F
  }

  /** Every `text()` payload among `cmds` is free of ASCII control characters. */
  predicate CleanText(cmds: seq<Command>) {
    forall i, j | 0 <= i < |cmds| && cmds[i].Text? && 0 <= j < |cmds[i].text| :: !IsControlChar(cmds[i].text[j])
  }

  /** The bytes a text-run command stands for: the encoding of a text, or the invalid bytes themselves. */
  function CommandBytes(c: Command): seq<byte> {
    match c
    case Text(t) => EncodeString(t)
    case InvalidUtf8(x) => x
    case _ => []
  }

  /** The bytes a sequence of text-run commands stands for. */
  function RunBytes(cmds: seq<Command>): seq<byte> {
    if cmds == [] then [] else CommandBytes(cmds[0]) + RunBytes(cmds[1..])
  }

  lemma {:induction false} RunBytesAppend(a: seq<Command>, b: seq<Command>)
    ensures RunBytes(a + b) == RunBytes(a) + RunBytes(b)
  {
    if a == [] {
      assert a + b == b;
    } else {
      assert (a + b)[0] == a[0];
      assert (a + b)[1..] == a[1..] + b;
      RunBytesAppend(a[1..], b);
      assert RunBytes(a + b) == CommandBytes(a[0]) + (RunBytes(a[1..]) + RunBytes(b));
    }
  }

  /** A command `emit_text` can produce: text, or one to three invalid bytes. */
  predicate TextRunCommand(c: Command) {
    c.Text? || (c.InvalidUtf8? && 1 <= |c.bytes| <= 3)
  }

  /** The validator stops at a character it cannot accept. */
  lemma {:induction false} ValidUpToStops(s: seq<byte>)
    requires ValidUpTo(s) < |s|
    ensures !StepAt(s[ValidUpTo(s)..]).Char?
    decreases |s|
  {
    if StepAt(s).Char? {
      var k := StepAt(s).len;
      ValidUpToStops(s[k..]);
      assert s[k..][ValidUpTo(s[k..])..] == s[ValidUpTo(s)..];
    }
  }

  lemma {:induction false} PairThenRest(a: Command, c: Command, rest: seq<Command>)
    ensures [a, c] + rest == [a] + ([c] + rest)
  {
    assert [a, c] == [a] + [c];
  }

  lemma {:induction false} RunOfText(x: string, rest: seq<Command>)
    ensures RunBytes([Text(x)] + rest) == EncodeString(x) + RunBytes(rest)
  {
    assert ([Text(x)] + rest)[1..] == rest;
  }

  lemma {:induction false} RunOfInvalid(x: seq<byte>, rest: seq<Command>)
    ensures RunBytes([InvalidUtf8(x)] + rest) == x + RunBytes(rest)
  {
    assert ([InvalidUtf8(x)] + rest)[1..] == rest;
  }

  lemma {:induction false} ThreeParts(b: seq<byte>, v: nat, n: nat, r: seq<byte>, t: seq<byte>)
    requires v <= n <= |b| && r + t == b[n..]
    ensures b[..v] + (b[v..n] + r) + t == b
  {
    assert b[..v] + b[v..n] + (r + t) == b;
  }

  /**
   * `emit_text` accounts for every byte of its run: the encodings of the
   * text payloads, the invalid sequences and the returned tail, in order,
   * rebuild the run.
   */
  lemma {:induction false} EmitTextRebuilds(b: seq<byte>)
    ensures RunBytes(EmitText(b).cmds) + EmitText(b).tail == b
    decreases |b|, 1
  {
    if b != [] {
      if ValidUpTo(b) == |b| {
        DecodeStringEncode(b);
        RunOfText(DecodeString(b), []);
      } else if StepAt(b[ValidUpTo(b)..]).Bad? {
        RebuildAfterInvalid(b);
      } else {
        RebuildCutOff(b);
      }
    }
  }

  /** A text run, an invalid sequence and a rebuilt rest give back their bytes. */
  lemma {:induction false} RebuildPieces(b: seq<byte>, v: nat, n: nat, x: string, more: Decoded, d: Decoded)
    requires v <= n <= |b| && EncodeString(x) == b[..v] && RunBytes(more.cmds) + more.tail == b[n..]
    requires d.cmds == [Text(x), InvalidUtf8(b[v..n])] + more.cmds && d.tail == more.tail
    ensures RunBytes(d.cmds) + d.tail == b
  {
    PairThenRest(Text(x), InvalidUtf8(b[v..n]), more.cmds);
    RunOfText(x, [InvalidUtf8(b[v..n])] + more.cmds);
    RunOfInvalid(b[v..n], more.cmds);
    ThreeParts(b, v, n, RunBytes(more.cmds), more.tail);
  }

  lemma {:induction false} RebuildAfterInvalid(b: seq<byte>)
    requires ValidUpTo(b) < |b| && StepAt(b[ValidUpTo(b)..]).Bad?
    ensures RunBytes(EmitError(b).cmds) + EmitError(b).tail == b
    decreases |b|, 0
  {
    var v, n, x, more := InvalidPieces(b);
    EmitTextRebuilds(b[n..]);
    RebuildPieces(b, v, n, x, more, EmitError(b));
  }

  /** The pieces of the `Err` arm after an invalid sequence. */
  lemma {:induction false} InvalidPieces(b: seq<byte>) returns (v: nat, n: nat, x: string, more: Decoded)
    requires ValidUpTo(b) < |b| && StepAt(b[ValidUpTo(b)..]).Bad?
    ensures v < n <= |b| && EncodeString(x) == b[..v] && more == EmitText(b[n..])
    ensures EmitError(b).cmds == [Text(x), InvalidUtf8(b[v..n])] + more.cmds
    ensures EmitError(b).tail == more.tail
  {
    v := ValidUpTo(b);
    ValidPrefixIsValid(b);
    var st := StepAt(b[v..]);
    n := v + st.len;
    x := DecodeString(b[..v]);
    DecodeStringEncode(b[..v]);
    more := EmitText(b[n..]);
    assert EmitError(b) ==
      if st.Bad? then Decoded([Text(x), InvalidUtf8(b[v..n])] + more.cmds, more.tail)
      else Decoded([], []);
  }

  /** The valid prefix and the cut-off character give back the run. */
  lemma {:induction false} RebuildCutOff(b: seq<byte>)
    requires ValidUpTo(b) < |b| && !StepAt(b[ValidUpTo(b)..]).Bad?
    ensures RunBytes(EmitError(b).cmds) + EmitError(b).tail == b
  {
    var v := ValidUpTo(b);
    ValidPrefixIsValid(b);
    var st := StepAt(b[v..]);
    var x := DecodeString(b[..v]);
    DecodeStringEncode(b[..v]);
    assert EmitError(b) == if st.Bad? then Decoded([], []) else Decoded([Text(x)], b[v..]);
    RunOfText(x, []);
    assert [Text(x)] + [] == [Text(x)];
    assert RunBytes([Text(x)]) == b[..v];
    assert b == b[..v] + b[v..];
  }

  /** `emit_text` produces only text and one- to three-byte invalid sequences. */
  lemma {:induction false} EmitTextCommands(b: seq<byte>)
    ensures forall i | 0 <= i < |EmitText(b).cmds| :: TextRunCommand(EmitText(b).cmds[i])
    decreases |b|, 1
  {
    if b != [] && ValidUpTo(b) < |b| {
      EmitErrorCommands(b);
    }
  }

  lemma {:induction false} EmitErrorCommands(b: seq<byte>)
    requires ValidUpTo(b) < |b|
    ensures forall i | 0 <= i < |EmitError(b).cmds| :: TextRunCommand(EmitError(b).cmds[i])
    decreases |b|, 0
  {
    var v := ValidUpTo(b);
    if StepAt(b[v..]).Bad? {
      EmitTextCommands(b[v + StepAt(b[v..]).len..]);
    }
  }

  /** A non-empty tail of `emit_text` is a character cut off by the end of the run. */
  lemma {:induction false} EmitTextTail(b: seq<byte>)
    ensures EmitText(b).tail != [] ==> StepAt(EmitText(b).tail).Truncated?
    decreases |b|, 1
  {
    if b != [] && ValidUpTo(b) < |b| {
      EmitErrorTail(b);
    }
  }

  lemma {:induction false} EmitErrorTail(b: seq<byte>)
    requires ValidUpTo(b) < |b|
    ensures EmitError(b).tail != [] ==> StepAt(EmitError(b).tail).Truncated?
    decreases |b|, 0
  {
    if StepAt(b[ValidUpTo(b)..]).Bad? {
      EmitTextTail(b[ValidUpTo(b) + StepAt(b[ValidUpTo(b)..]).len..]);
    } else {
      CutOffIsTruncated(b);
    }
  }

  lemma {:induction false} CutOffIsTruncated(b: seq<byte>)
    requires ValidUpTo(b) < |b| && !StepAt(b[ValidUpTo(b)..]).Bad?
    ensures EmitError(b).tail == b[ValidUpTo(b)..] && StepAt(b[ValidUpTo(b)..]).Truncated?
  {
    ValidUpToStops(b);
  }

  /** Decoding control-free bytes yields no control characters. */
  lemma {:induction false} ValidTextClean(x: seq<byte>)
    requires IsValid(x) && ControlFree(x)
    ensures forall j | 0 <= j < |DecodeString(x)| :: !IsControlChar(DecodeString(x)[j])
  {
    var cs := DecodeString(x);
    DecodeStringEncode(x);
    forall j | 0 <= j < |cs| ensures !IsControlChar(cs[j]) {
      if IsControlChar(cs[j]) {
        AsciiCharInEncoding(cs, j);
        var i :| 0 <= i < |EncodeString(cs)| && EncodeString(cs)[i] == cs[j] as int;
        assert IsAsciiControl(x[i]);
      }
    }
  }

  lemma {:induction false} EmitTextClean(b: seq<byte>)
    requires ControlFree(b)
    ensures CleanText(EmitText(b).cmds)
    decreases |b|, 1
  {
    if b != [] {
      if ValidUpTo(b) == |b| {
        ValidTextClean(b);
      } else {
        EmitErrorClean(b);
      }
    }
  }

  lemma {:induction false} EmitErrorClean(b: seq<byte>)
    requires ControlFree(b) && ValidUpTo(b) < |b|
    ensures CleanText(EmitError(b).cmds)
    decreases |b|, 0
  {
    var v := ValidUpTo(b);
    ValidPrefixIsValid(b);
    ValidTextClean(b[..v]);
    if StepAt(b[v..]).Bad? {
      var n := v + StepAt(b[v..]).len;
      assert ControlFree(b[n..]);
      EmitTextClean(b[n..]);
    }
  }

  predicate NoText(cmds: seq<Command>) {
    forall i | 0 <= i < |cmds| :: !cmds[i].Text?
  }

  lemma {:induction false} SgrGroupsNoText(groups: seq<seq<byte>>)
    ensures NoText(SgrGroups(groups).cmds)
    decreases |groups|
  {
    if groups != [] {
      SgrGroupsNoText(groups[1..]);
    }
  }

  lemma {:induction false} StandardTerminatorNoText(p: seq<byte>, terminator: byte)
    ensures NoText(StandardTerminator(p, terminator).cmds)
  {
    if terminator == 0x6D {
      SgrGroupsNoText(Split(p, {SEMICOLON}));
    }
  }

  lemma {:induction false} ControlSequenceNoText(s: seq<byte>)
    ensures NoText(ControlSequence(s).cmds)
  {
    match TakeFields(s, 0x30, 0x3F, 0x20, 0x2F)
    case Cut =>
    case Fields(parameters, _, terminator, _) =>
      if parameters == [] || parameters[0] != QUESTION {
        StandardTerminatorNoText(parameters, terminator);
      }
  }

  /** Control sequences never emit `text()`. */
  lemma {:induction false} ControlAtNoText(s: seq<byte>)
    ensures NoText(ControlAt(s).cmds)
  {
    if s != [] && s[0] == ESC {
      EscapeSequenceNoText(s[1..]);
    }
  }

  lemma {:induction false} EscapeSequenceNoText(s: seq<byte>)
    ensures NoText(EscapeSequence(s).cmds)
  {
    if s != [] && s[0] == 0x5B {
      ControlSequenceNoText(s[1..]);
    }
  }

  lemma {:induction false} CleanTextAppend(a: seq<Command>, b: seq<Command>)
    requires CleanText(a) && CleanText(b)
    ensures CleanText(a + b)
  {
    forall i, j | 0 <= i < |a + b| && (a + b)[i].Text? && 0 <= j < |(a + b)[i].text|
      ensures !IsControlChar((a + b)[i].text[j])
    {
      if i >= |a| {
        assert (a + b)[i] == b[i - |a|];
      }
    }
  }

  /** No `text()` payload of a parse contains an ASCII control character. */
  lemma {:induction false} ParseTextClean(s: seq<byte>)
    ensures CleanText(Parse(s).cmds)
    decreases |s|
  {
    var k := FirstControl(s);
    if k == |s| {
      assert ControlFree(s);
      EmitTextClean(s);
    } else {
      var c := ControlAt(s[k..]);
      if c.outcome != Incomplete {
        ParseTextClean(c.rest);
      }
      ParseAtControlClean(s);
    }
  }

  /** The text before a control byte is clean. */
  lemma {:induction false} TextBeforeClean(b: seq<byte>)
    requires ControlFree(b)
    ensures CleanText(TextBefore(b))
  {
    EmitTextClean(b);
    var d := EmitText(b);
    CleanTextAppend(d.cmds, if d.tail == [] then [] else [InvalidUtf8(d.tail)]);
  }

  /** One round of `parse` at a control byte keeps the text clean, given that the rest of the parse is. */
  lemma {:induction false} ParseAtControlClean(s: seq<byte>)
    requires FirstControl(s) < |s|
    requires var c := ControlAt(s[FirstControl(s)..]);
      c.outcome != Incomplete ==> CleanText(Parse(c.rest).cmds)
    ensures CleanText(Parse(s).cmds)
  {
    var k := FirstControl(s);
    ParseSplit(s);
    assert ControlFree(s[..k]);
    TextBeforeClean(s[..k]);
    ParseControlClean(s[k..]);
    CleanTextAppend(TextBefore(s[..k]), ParseControl(s[k..]).cmds);
  }

  /** A turn of `parse` at a control byte adds no text, so it is clean when the rest of the parse is. */
  lemma {:induction false} ParseControlClean(y: seq<byte>)
    requires y != []
    requires ControlAt(y).outcome != Incomplete ==> CleanText(Parse(ControlAt(y).rest).cmds)
    ensures CleanText(ParseControl(y).cmds)
  {
    var c := ControlAt(y);
    ControlAtNoText(y);
    if c.outcome == Parsed {
      CleanTextAppend(c.cmds, Parse(c.rest).cmds);
    } else if c.outcome == Invalid {
      var last := [InvalidControlSequence(y[..|y| - |c.rest|])];
      CleanTextAppend(c.cmds, last);
      CleanTextAppend(c.cmds + last, Parse(c.rest).cmds);
    }
  }


  /** One round of `parse`: the text before the first control byte, then parsing resumes at that byte. */
  lemma {:induction false} ParseSplit(s: seq<byte>)
    requires FirstControl(s) < |s|
    ensures Parse(s).cmds == TextBefore(s[..FirstControl(s)]) + ParseControl(s[FirstControl(s)..]).cmds
    ensures Parse(s).tail == ParseControl(s[FirstControl(s)..]).tail
  {
  }

  /** `TextBefore` rebuilds the run before a control byte, a cut-off character included. */
  lemma {:induction false} TextBeforeRebuilds(b: seq<byte>)
    ensures RunBytes(TextBefore(b)) == b
  {
    var d := EmitText(b);
    EmitTextRebuilds(b);
    assert RunBytes([InvalidUtf8(d.tail)]) == d.tail;
    RunBytesAppend(d.cmds, if d.tail == [] then [] else [InvalidUtf8(d.tail)]);
  }

  // ---------------------------------------------------------------- the tail

  lemma {:induction false} SuffixTrans(t: seq<byte>, r: seq<byte>, s: seq<byte>)
    requires IsSuffix(t, r) && IsSuffix(r, s)
    ensures IsSuffix(t, s)
  {
    assert s[|s| - |t|..] == s[|s| - |r|..][|r| - |t|..];
  }

  lemma {:induction false} TailIsSuffix(a: seq<byte>, t: seq<byte>, s: seq<byte>)
    requires a + t == s
    ensures IsSuffix(t, s)
  {
    assert s[|a|..] == t;
  }

  /** Without a control byte, `parse` is `emit_text`. */
  lemma {:induction false} ParseWithoutControl(s: seq<byte>)
    requires FirstControl(s) == |s|
    ensures Parse(s).cmds == EmitText(s).cmds && Parse(s).tail == EmitText(s).tail
  {
  }

  /** A control sequence that needs more bytes is returned whole, from its first byte on. */
  lemma {:induction false} ParseStopsAtIncomplete(s: seq<byte>)
    requires FirstControl(s) < |s| && ControlAt(s[FirstControl(s)..]).outcome == Incomplete
    ensures Parse(s).tail == s[FirstControl(s)..]
  {
  }

  /** After a complete control sequence, parsing carries on with what follows it. */
  lemma {:induction false} ParseCarriesOn(s: seq<byte>)
    requires FirstControl(s) < |s| && ControlAt(s[FirstControl(s)..]).outcome != Incomplete
    ensures Parse(s).tail == Parse(ControlAt(s[FirstControl(s)..]).rest).tail
  {
  }

  /** What `parse` leaves over when the input has no control byte. */
  lemma {:induction false} TextTail(s: seq<byte>)
    requires FirstControl(s) == |s|
    ensures IsSuffix(Parse(s).tail, s)
    ensures Parse(s).tail != [] ==>
      ControlFree(Parse(s).tail) && 1 <= |Parse(s).tail| <= 3 && StepAt(Parse(s).tail).Truncated?
  {
    ParseWithoutControl(s);
    EmitTextRebuilds(s);
    EmitTextTail(s);
    var tail := EmitText(s).tail;
    TailIsSuffix(RunBytes(EmitText(s).cmds), tail, s);
    if tail != [] {
      assert ControlFree(s);
      assert forall i | 0 <= i < |tail| :: tail[i] == s[|s| - |tail| + i];
    }
  }

  /**
   * `parse` returns a suffix of its input, and a non-empty one only when it
   * starts with a control sequence that needs more bytes, or when it is a
   * control-free character cut off by the end of the input (at most three
   * bytes).
   */
  lemma {:induction false} ParseTail(s: seq<byte>)
    ensures IsSuffix(Parse(s).tail, s)
    ensures Parse(s).tail != [] ==>
      || (IsAsciiControl(Parse(s).tail[0]) && ControlAt(Parse(s).tail).outcome == Incomplete)
      || (ControlFree(Parse(s).tail) && 1 <= |Parse(s).tail| <= 3 && StepAt(Parse(s).tail).Truncated?)
    decreases |s|
  {
    if FirstControl(s) == |s| {
      TextTail(s);
    } else if ControlAt(s[FirstControl(s)..]).outcome == Incomplete {
      ParseStopsAtIncomplete(s);
      assert s[FirstControl(s)..] == s[|s| - |s[FirstControl(s)..]|..];
    } else {
      var r := ControlAt(s[FirstControl(s)..]).rest;
      ParseCarriesOn(s);
      ControlAtSuffix(s[FirstControl(s)..]);
      assert IsSuffix(s[FirstControl(s)..], s);
      SuffixTrans(r, s[FirstControl(s)..], s);
      ParseTail(r);
      SuffixTrans(Parse(r).tail, r, s);
    }
  }
}
