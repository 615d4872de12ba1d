/**
 * Reading the pseudo-terminal in pieces. `process_input` parses the residual
 * bytes of the previous read followed by the new input, and keeps what
 * `parse` returns as the next residual. These lemmas show that where a read
 * ends does not matter: two reads leave the same residual as one read of
 * both, and they produce the same commands except that a text run cut by the
 * read boundary arrives as two `text()` calls instead of one. On the screen,
 * where `text` inserts one character at a time, the two are the same.
 */
module ChunkProperties {
  import opened Primitives
  import opened Utf8
  import opened ControlCode
  import opened DecoderProperties
  import opened Colors
  import opened Grid
  import opened ScreenSpec

  // ---------------------------------------------------------------- text runs, one character at a time

  /** One `text()` call per character of `s`. */
  function Chars(s: string): (cmds: seq<Command>)
    ensures |cmds| == |s|
    ensures forall i | 0 <= i < |s| :: cmds[i] == Text([s[i]])
    decreases |s|
  {
    if s == [] then [] else [Text([s[0]])] + Chars(s[1..])
  }

  /** A command with its text, if any, split into one call per character. */
  function Spread(c: Command): seq<Command> {
    if c.Text? then Chars(c.text) else [c]
  }

  /** The commands with every `text()` call split into one call per character; empty text disappears. */
  function PerChar(cmds: seq<Command>): seq<Command>
    decreases |cmds|
  {
    if cmds == [] then [] else Spread(cmds[0]) + PerChar(cmds[1..])
  }

  lemma {:induction false} CharsAppend(a: string, b: string)
    ensures Chars(a + b) == Chars(a) + Chars(b)
  {
  }

  lemma {:induction false} PerCharAppend(a: seq<Command>, b: seq<Command>)
    ensures PerChar(a + b) == PerChar(a) + PerChar(b)
    decreases |a|
  {
    if a == [] {
      assert a + b == b;
    } else {
      assert (a + b)[0] == a[0];
      assert (a + b)[1..] == a[1..] + b;
      PerCharAppend(a[1..], b);
    }
  }

  lemma {:induction false} PerCharOne(c: Command)
    ensures PerChar([c]) == Spread(c)
  {
    assert [c][1..] == [];
  }

  /**
   * Splitting text leaves every other command where it was: a command that
   * is not text occurs in the split commands exactly when it occurs in the
   * original ones.
   */
  lemma {:induction false} PerCharKeeps(cmds: seq<Command>, c: Command)
    requires !c.Text?
    ensures c in PerChar(cmds) <==> c in cmds
    decreases |cmds|
  {
    if cmds != [] {
      PerCharKeeps(cmds[1..], c);
      assert c in Spread(cmds[0]) <==> c == cmds[0];
      assert cmds == [cmds[0]] + cmds[1..];
    }
  }

  // ---------------------------------------------------------------- emit_text in pieces

  lemma {:induction false} DecodeStringAppend(p: seq<byte>, q: seq<byte>)
    requires IsValid(p) && IsValid(q)
    ensures IsValid(p + q)
    ensures DecodeString(p + q) == DecodeString(p) + DecodeString(q)
  {
    DecodeStringEncode(p);
    DecodeStringEncode(q);
    EncodeStringAppend(DecodeString(p), DecodeString(q));
    EncodeStringValid(DecodeString(p) + DecodeString(q));
  }

  /**
   * The `Err` arm of `emit_text` once its valid text `front` is known: `q`,
   * which does not start with a complete character, is what follows.
   */
  function ErrorFrom(front: string, q: seq<byte>): Decoded
    requires q != []
  {
    var st := StepAt(q);
    if st.Bad? then
      var more := EmitText(q[st.len..]);
      Decoded([Text(front), InvalidUtf8(q[..st.len])] + more.cmds, more.tail)
    else Decoded([Text(front)], q)
  }

  /** Valid bytes followed by bytes that do not start a character: `emit_text` errs right there. */
  lemma {:induction false} ErrorFromSplit(a: seq<byte>, q: seq<byte>)
    requires IsValid(a) && q != [] && !StepAt(q).Char?
    ensures ValidUpTo(a + q) == |a| < |a + q|
    ensures EmitError(a + q) == ErrorFrom(DecodeString(a), q)
  {
    ErrorStart(a, q);
    var x := a + q;
    assert x[..|a|] == a;
    assert x[|a|..] == q;
    var st := StepAt(q);
    if st.Bad? {
      assert x[|a|..|a| + st.len] == q[..st.len];
      assert x[|a| + st.len..] == q[st.len..];
    }
  }

  /** Valid bytes followed by bytes that do not start a character are valid exactly that far. */
  lemma {:induction false} ErrorStart(a: seq<byte>, q: seq<byte>)
    requires IsValid(a) && q != [] && !StepAt(q).Char?
    ensures ValidUpTo(a + q) == |a|
  {
    ValidUpToAppend(a, q);
    assert ValidUpTo(q) == 0;
  }

  /** A run that is not valid throughout is its valid prefix, then where the `Err` arm starts. */
  lemma {:induction false} SplitAtError(x: seq<byte>) returns (p: seq<byte>, q: seq<byte>)
    requires ValidUpTo(x) < |x|
    ensures x == p + q && IsValid(p) && q != [] && !StepAt(q).Char?
    ensures EmitError(x) == ErrorFrom(DecodeString(p), q)
  {
    p, q := x[..ValidUpTo(x)], x[ValidUpTo(x)..];
    assert x == p + q;
    ValidPrefixIsValid(x);
    ValidUpToStops(x);
    ErrorFromSplit(p, q);
  }

  /** More valid text in front only lengthens the first text of the `Err` arm. */
  lemma {:induction false} ErrorFromFront(f: string, g: string, q: seq<byte>)
    requires q != []
    ensures ErrorFrom(f + g, q).tail == ErrorFrom(g, q).tail
    ensures PerChar(ErrorFrom(f + g, q).cmds) == Chars(f) + PerChar(ErrorFrom(g, q).cmds)
  {
    var st := StepAt(q);
    var rest: seq<Command> := if st.Bad? then [InvalidUtf8(q[..st.len])] + EmitText(q[st.len..]).cmds else [];
    if st.Bad? {
      PairThenRest(Text(f + g), InvalidUtf8(q[..st.len]), EmitText(q[st.len..]).cmds);
      PairThenRest(Text(g), InvalidUtf8(q[..st.len]), EmitText(q[st.len..]).cmds);
    } else {
      assert [Text(f + g)] + rest == [Text(f + g)];
      assert [Text(g)] + rest == [Text(g)];
    }
    PerCharAppend([Text(f + g)], rest);
    PerCharAppend([Text(g)], rest);
    PerCharOne(Text(f + g));
    PerCharOne(Text(g));
    CharsAppend(f, g);
    AppendAssoc(Chars(f), Chars(g), PerChar(rest));
  }

  /**
   * Valid bytes in front of a run only lengthen its first text: the rest of
   * what `emit_text` emits, and its tail, are unchanged.
   */
  lemma {:induction false} ErrorAfterValid(p: seq<byte>, r: seq<byte>)
    requires IsValid(p) && ValidUpTo(r) < |r|
    ensures ValidUpTo(p + r) < |p + r|
    ensures EmitError(p + r).tail == EmitError(r).tail
    ensures PerChar(EmitError(p + r).cmds) == Chars(DecodeString(p)) + PerChar(EmitError(r).cmds)
  {
    var a, q := SplitAtError(r);
    AppendAssoc(p, a, q);
    DecodeStringAppend(p, a);
    ErrorFromSplit(p + a, q);
    ErrorFromFront(DecodeString(p), DecodeString(a), q);
  }

  /** `emit_text` on valid bytes followed by more: their text, then what the rest gives. */
  lemma {:induction false} EmitTextAfterValid(p: seq<byte>, r: seq<byte>)
    requires IsValid(p)
    ensures EmitText(p + r).tail == EmitText(r).tail
    ensures PerChar(EmitText(p + r).cmds) == Chars(DecodeString(p)) + PerChar(EmitText(r).cmds)
  {
    if p == [] {
      assert p + r == r;
    } else if r == [] {
      assert p + r == p;
      PerCharOne(Text(DecodeString(p)));
    } else if IsValid(r) {
      DecodeStringAppend(p, r);
      PerCharOne(Text(DecodeString(p + r)));
      PerCharOne(Text(DecodeString(r)));
      CharsAppend(DecodeString(p), DecodeString(r));
    } else {
      ErrorAfterValid(p, r);
    }
  }

  /**
   * `emit_text` in two pieces: the run `x + b` leaves the same tail as `b`
   * after the tail of `x`, and emits the same characters and invalid
   * sequences in the same order.
   */
  lemma {:induction false} EmitTextChunk(x: seq<byte>, b: seq<byte>)
    ensures EmitText(x + b).tail == EmitText(EmitText(x).tail + b).tail
    ensures PerChar(EmitText(x + b).cmds) == PerChar(EmitText(x).cmds) + PerChar(EmitText(EmitText(x).tail + b).cmds)
    decreases |x|, 2
  {
    if x == [] {
      assert x + b == b;
    } else if IsValid(x) {
      assert EmitText(x) == Decoded([Text(DecodeString(x))], []);
      assert [] + b == b;
      EmitTextAfterValid(x, b);
      PerCharOne(Text(DecodeString(x)));
    } else {
      EmitErrorChunk(x, b);
    }
  }

  /** `EmitTextChunk` for a run that is not valid throughout. */
  lemma {:induction false} EmitErrorChunk(x: seq<byte>, b: seq<byte>)
    requires ValidUpTo(x) < |x|
    ensures EmitText(x + b).tail == EmitText(EmitError(x).tail + b).tail
    ensures PerChar(EmitText(x + b).cmds) == PerChar(EmitError(x).cmds) + PerChar(EmitText(EmitError(x).tail + b).cmds)
    decreases |x|, 1
  {
    var p, q := SplitAtError(x);
    AppendAssoc(p, q, b);
    EmitTextAfterValid(p, q + b);
    ErrorFromChunk(DecodeString(p), q, b);
  }

  /** `EmitTextChunk` from where the `Err` arm starts. */
  lemma {:induction false} ErrorFromChunk(f: string, q: seq<byte>, b: seq<byte>)
    requires q != [] && !StepAt(q).Char?
    ensures EmitText(q + b).tail == EmitText(ErrorFrom(f, q).tail + b).tail
    ensures Chars(f) + PerChar(EmitText(q + b).cmds) ==
            PerChar(ErrorFrom(f, q).cmds) + PerChar(EmitText(ErrorFrom(f, q).tail + b).cmds)
    decreases |q|, 0
  {
    if StepAt(q).Bad? {
      var bad, r := BadTurn(f, q, b);
      EmitTextChunk(r, b);
      ErrorGlue(f, bad, EmitText(r).cmds, EmitText(r + b).cmds, EmitText(EmitText(r).tail + b).cmds);
    } else {
      PerCharOne(Text(f));
    }
  }

  /**
   * An invalid sequence at the start of `q`: the `Err` arm reports it and
   * carries on at `r`, and so does `emit_text` on `q + b`, with no text
   * before it and `r + b` after it.
   */
  lemma {:induction false} BadTurn(f: string, q: seq<byte>, b: seq<byte>) returns (bad: Command, r: seq<byte>)
    requires q != [] && StepAt(q).Bad?
    ensures !bad.Text? && |r| < |q|
    ensures ErrorFrom(f, q) == Decoded([Text(f), bad] + EmitText(r).cmds, EmitText(r).tail)
    ensures EmitText(q + b) == Decoded([Text([]), bad] + EmitText(r + b).cmds, EmitText(r + b).tail)
  {
    var n := StepAt(q).len;
    bad, r := InvalidUtf8(q[..n]), q[n..];
    ErrorAtStart(q, b);
    StepAtPrefix(q, b);
    assert (q + b)[..n] == q[..n];
    assert (q + b)[n..] == r + b;
  }

  /** A run that starts with an invalid sequence goes straight into the `Err` arm, with no text before it. */
  lemma {:induction false} ErrorAtStart(q: seq<byte>, b: seq<byte>)
    requires q != [] && StepAt(q).Bad?
    ensures q + b != [] && ValidUpTo(q + b) == 0
    ensures EmitText(q + b) == ErrorFrom([], q + b)
  {
    StepAtPrefix(q, b);
    assert [] + (q + b) == q + b;
    ErrorFromSplit([], q + b);
  }

  /** The invalid sequence and the rest of a run, with and without the text before them. */
  lemma {:induction false} ErrorGlue(f: string, bad: Command, first: seq<Command>, whole: seq<Command>, second: seq<Command>)
    requires !bad.Text?
    requires PerChar(whole) == PerChar(first) + PerChar(second)
    ensures Chars(f) + PerChar([Text([]), bad] + whole) == PerChar([Text(f), bad] + first) + PerChar(second)
  {
    PerCharAppend([Text([]), bad], whole);
    PerCharAppend([Text(f), bad], first);
    assert [Text([]), bad][1..] == [bad] && [Text(f), bad][1..] == [bad];
    PerCharOne(bad);
    assert PerChar([Text(f), bad]) == Chars(f) + [bad];
    assert PerChar([Text([]), bad]) == [bad];
    AppendAssoc(Chars(f), [bad], PerChar(whole));
    AppendAssoc(Chars(f) + [bad], PerChar(first), PerChar(second));
  }

  /** The text before a control byte, in two pieces. */
  lemma {:induction false} TextBeforeChunk(x: seq<byte>, b: seq<byte>)
    ensures PerChar(TextBefore(x + b)) == PerChar(EmitText(x).cmds) + PerChar(TextBefore(EmitText(x).tail + b))
  {
    var t := EmitText(x).tail;
    EmitTextChunk(x, b);
    var last := if EmitText(x + b).tail == [] then [] else [InvalidUtf8(EmitText(x + b).tail)];
    PerCharAppend(EmitText(x + b).cmds, last);
    PerCharAppend(EmitText(t + b).cmds, last);
  }

  // ---------------------------------------------------------------- parse in pieces

  lemma {:induction false} FirstControlAppend(x: seq<byte>, b: seq<byte>)
    ensures FirstControl(x) < |x| ==> FirstControl(x + b) == FirstControl(x)
    ensures FirstControl(x) == |x| ==> FirstControl(x + b) == |x| + FirstControl(b)
    decreases |x|
  {
    if x == [] {
      assert x + b == b;
    } else {
      assert (x + b)[0] == x[0];
      assert (x + b)[1..] == x[1..] + b;
      FirstControlAppend(x[1..], b);
    }
  }

  lemma {:induction false} ControlFreeHasNoControl(t: seq<byte>)
    requires ControlFree(t)
    ensures FirstControl(t) == |t|
    decreases |t|
  {
    if t != [] {
      assert ControlFree(t[1..]) by {
        forall k | 0 <= k < |t[1..]| ensures !IsAsciiControl(t[1..][k]) {
          assert t[1..][k] == t[k + 1];
        }
      }
      ControlFreeHasNoControl(t[1..]);
    }
  }

  /** An input with a control byte is the control-free text before it, then the rest from that byte on. */
  lemma {:induction false} SplitAtControl(s: seq<byte>) returns (text: seq<byte>, rest: seq<byte>)
    requires FirstControl(s) < |s|
    ensures s == text + rest
    ensures FirstControl(text) == |text|
    ensures rest != [] && IsAsciiControl(rest[0])
  {
    var k := FirstControl(s);
    text, rest := s[..k], s[k..];
    assert s == text + rest;
    ControlFreeHasNoControl(text);
  }

  /** `parse` on control-free text followed by a control byte: the text, then the turn at that byte. */
  lemma {:induction false} ParseAfterText(text: seq<byte>, rest: seq<byte>)
    requires FirstControl(text) == |text|
    requires rest != [] && IsAsciiControl(rest[0])
    ensures Parse(text + rest).cmds == TextBefore(text) + ParseControl(rest).cmds
    ensures Parse(text + rest).tail == ParseControl(rest).tail
  {
    FirstControlAppend(text, rest);
    assert (text + rest)[..|text|] == text;
    assert (text + rest)[|text|..] == rest;
  }

  /** From a control byte on, `parse` is one turn at that byte. */
  lemma {:induction false} ParseFromControl(y: seq<byte>)
    requires y != [] && IsAsciiControl(y[0])
    ensures Parse(y) == ParseControl(y)
  {
    assert y[..0] == [] && y[0..] == y;
    assert TextBefore([]) == [];
  }

  lemma {:induction false} AppendAssoc<T>(a: seq<T>, b: seq<T>, c: seq<T>)
    ensures a + (b + c) == a + b + c
  {
  }

  /** Commands put in front of both sides of a split keep it. */
  lemma {:induction false} GlueHead(head: seq<Command>, first: seq<Command>, whole: seq<Command>, second: seq<Command>)
    requires PerChar(whole) == PerChar(first) + PerChar(second)
    ensures PerChar(head + whole) == PerChar(head + first) + PerChar(second)
  {
    PerCharAppend(head, first);
    PerCharAppend(head, whole);
    AppendAssoc(PerChar(head), PerChar(first), PerChar(second));
  }

  /** The bytes a complete control sequence consumed do not depend on what follows the input. */
  lemma {:induction false} ConsumedAppend(y: seq<byte>, r: seq<byte>, b: seq<byte>)
    requires |r| <= |y|
    ensures (y + b)[..|y + b| - |r + b|] == y[..|y| - |r|]
  {
  }

  /**
   * Chunk-boundary invariance of `parse`. Parsing `x`, then its tail followed
   * by `b`, leaves the same tail as parsing `x + b` at once, and emits the
   * same commands once text runs are split into single characters.
   */
  lemma {:induction false} ParseChunk(x: seq<byte>, b: seq<byte>)
    ensures Parse(Parse(x).tail + b).tail == Parse(x + b).tail
    ensures PerChar(Parse(x + b).cmds) == PerChar(Parse(x).cmds) + PerChar(Parse(Parse(x).tail + b).cmds)
    decreases |x|, 2
  {
    if FirstControl(x) < |x| {
      var text, y := SplitAtControl(x);
      AppendAssoc(text, y, b);
      ControlChunk(text, y, b);
    } else if FirstControl(b) == |b| {
      TextOnlyChunk(x, b);
    } else {
      var text, z := SplitAtControl(b);
      AppendAssoc(x, text, z);
      TextThenControlChunk(x, text, z);
    }
  }

  /** `ParseChunk` when `x` has a control byte: the text before it is parsed alike both ways. */
  lemma {:induction false} ControlChunk(text: seq<byte>, y: seq<byte>, b: seq<byte>)
    requires FirstControl(text) == |text|
    requires y != [] && IsAsciiControl(y[0])
    ensures Parse(Parse(text + y).tail + b).tail == Parse(text + (y + b)).tail
    ensures PerChar(Parse(text + (y + b)).cmds) ==
            PerChar(Parse(text + y).cmds) + PerChar(Parse(Parse(text + y).tail + b).cmds)
    decreases |text + y|, 1
  {
    var complete, head, r := ControlTurn(text, y, b);
    if complete {
      ParseChunk(r, b);
      GlueHead(TextBefore(text) + head, Parse(r).cmds, Parse(r + b).cmds, Parse(Parse(r).tail + b).cmds);
    } else {
      PerCharAppend(TextBefore(text), Parse(y + b).cmds);
    }
  }

  /**
   * One turn of `parse` at the control byte after control-free text, with
   * and without more input `b` behind it. A complete sequence emits `head`
   * both ways and parsing resumes at `r`, or at `r + b`; an incomplete one
   * stops the parse of `text + y` and is parsed afresh once `b` arrives.
   */
  lemma {:induction false} ControlTurn(text: seq<byte>, y: seq<byte>, b: seq<byte>)
    returns (complete: bool, head: seq<Command>, r: seq<byte>)
    requires FirstControl(text) == |text|
    requires y != [] && IsAsciiControl(y[0])
    ensures |r| < |y|
    ensures !complete ==>
      && Parse(text + y) == Decoded(TextBefore(text), y)
      && Parse(text + (y + b)).cmds == TextBefore(text) + Parse(y + b).cmds
      && Parse(text + (y + b)).tail == Parse(y + b).tail
    ensures complete ==>
      && Parse(text + y).cmds == TextBefore(text) + head + Parse(r).cmds
      && Parse(text + y).tail == Parse(r).tail
      && Parse(text + (y + b)).cmds == TextBefore(text) + head + Parse(r + b).cmds
      && Parse(text + (y + b)).tail == Parse(r + b).tail
  {
    assert (y + b)[0] == y[0];
    ParseAfterText(text, y);
    ParseAfterText(text, y + b);
    var c := ControlAt(y);
    if c.outcome == Incomplete {
      complete, head, r := false, [], [];
      ParseFromControl(y + b);
      assert TextBefore(text) + [] == TextBefore(text);
    } else {
      complete, r := true, c.rest;
      ControlAtExtend(y, b);
      ConsumedAppend(y, c.rest, b);
      head := if c.outcome == Parsed then c.cmds else c.cmds + [InvalidControlSequence(y[..|y| - |c.rest|])];
      AppendAssoc(TextBefore(text), head, Parse(r).cmds);
      AppendAssoc(TextBefore(text), head, Parse(r + b).cmds);
    }
  }

  /** What `parse` leaves of control-free text is control-free text too. */
  lemma {:induction false} TextLeavesText(x: seq<byte>)
    requires FirstControl(x) == |x|
    ensures Parse(x) == EmitText(x)
    ensures FirstControl(Parse(x).tail) == |Parse(x).tail|
  {
    var t := EmitText(x).tail;
    ParseWithoutControl(x);
    TextTail(x);
    if t != [] {
      ControlFreeHasNoControl(t);
    } else {
      assert FirstControl(t) == |t|;
    }
  }

  /** `ParseChunk` when neither piece has a control byte: `emit_text` in two pieces. */
  lemma {:induction false} TextOnlyChunk(x: seq<byte>, b: seq<byte>)
    requires FirstControl(x) == |x| && FirstControl(b) == |b|
    ensures Parse(Parse(x).tail + b).tail == Parse(x + b).tail
    ensures PerChar(Parse(x + b).cmds) == PerChar(Parse(x).cmds) + PerChar(Parse(Parse(x).tail + b).cmds)
  {
    TextLeavesText(x);
    var t := EmitText(x).tail;
    FirstControlAppend(x, b);
    FirstControlAppend(t, b);
    ParseWithoutControl(x + b);
    ParseWithoutControl(t + b);
    EmitTextChunk(x, b);
  }

  /** `ParseChunk` when only the second piece has a control byte: the text before it spans the boundary. */
  lemma {:induction false} TextThenControlChunk(x: seq<byte>, text: seq<byte>, z: seq<byte>)
    requires FirstControl(x) == |x| && FirstControl(text) == |text|
    requires z != [] && IsAsciiControl(z[0])
    ensures Parse(Parse(x).tail + (text + z)).tail == Parse(x + text + z).tail
    ensures PerChar(Parse(x + text + z).cmds) == PerChar(Parse(x).cmds) + PerChar(Parse(Parse(x).tail + (text + z)).cmds)
  {
    TextLeavesText(x);
    var t := EmitText(x).tail;
    AppendAssoc(t, text, z);
    FirstControlAppend(x, text);
    FirstControlAppend(t, text);
    ParseAfterText(x + text, z);
    ParseAfterText(t + text, z);
    TextBeforeChunk(x, text);
    PerCharAppend(TextBefore(x + text), ParseControl(z).cmds);
    PerCharAppend(TextBefore(t + text), ParseControl(z).cmds);
    AppendAssoc(PerChar(EmitText(x).cmds), PerChar(TextBefore(t + text)), PerChar(ParseControl(z).cmds));
  }

  /** Control-free bytes that encode `cs` parse to the one `text()` call `cs`, with nothing left over. */
  lemma {:induction false} ParseWord(cs: string, bytes: seq<byte>)
    requires cs != [] && bytes == EncodeString(cs) && FirstControl(bytes) == |bytes|
    ensures Parse(bytes) == Decoded([Text(cs)], [])
  {
    EncodeStringValid(cs);
    ParseWithoutControl(bytes);
  }

  lemma {:induction false} ParseAbc()
    ensures Parse([0x61, 0x62, 0x63]) == Decoded([Text("abc")], [])
  {
    assert EncodeString("abc") == [0x61, 0x62, 0x63];
    ParseWord("abc", [0x61, 0x62, 0x63]);
  }

  lemma {:induction false} ParseAb()
    ensures Parse([0x61, 0x62]) == Decoded([Text("ab")], [])
  {
    assert EncodeString("ab") == [0x61, 0x62];
    ParseWord("ab", [0x61, 0x62]);
  }

  lemma {:induction false} ParseC()
    ensures Parse([0x63]) == Decoded([Text("c")], [])
  {
    assert EncodeString("c") == [0x63];
    ParseWord("c", [0x63]);
  }

  /**
   * The split is real: `abc` read at once is one `text()` call, while `ab`
   * then `c` are two.
   */
  lemma {:induction false} TextSplitAtBoundary()
    ensures Parse([0x61, 0x62, 0x63]).cmds == [Text("abc")]
    ensures Parse([0x61, 0x62]) == Decoded([Text("ab")], [])
    ensures Parse([0x63]).cmds == [Text("c")]
    ensures Parse([0x61, 0x62, 0x63]).cmds != Parse([0x61, 0x62]).cmds + Parse(Parse([0x61, 0x62]).tail + [0x63]).cmds
  {
    ParseAbc();
    ParseAb();
    ParseC();
    assert [] + [0x63 as byte] == [0x63];
  }

  // ---------------------------------------------------------------- on the screen

  lemma {:induction false} TextSpecAppend(p: Page, l: Layout, a: string, b: string, foreground: Color, background: Color, style: Styles)
    requires LayoutOk(l) && PageOk(p, l)
    ensures TextSpec(p, l, a + b, foreground, background, style) ==
            TextSpec(TextSpec(p, l, a, foreground, background, style), l, b, foreground, background, style)
    decreases |a|
  {
    if a == [] {
      assert a + b == b;
    } else {
      assert (a + b)[0] == a[0];
      assert (a + b)[1..] == a[1..] + b;
      TextSpecAppend(InsertCharSpec(p, l, GridCell(a[0], foreground, background, style), Blank(style)),
                     l, a[1..], b, foreground, background, style);
    }
  }

  /** `text(s)` does what one `text()` call per character does. */
  lemma {:induction false} RunChars(t: Term, s: string)
    requires TermOk(t)
    ensures ClearScrollback !in Chars(s)
    ensures Run(t, Chars(s)) == t.(page := TextSpec(t.page, t.layout, s, t.foreground, t.background, t.style))
    decreases |s|
  {
    if s != [] {
      var front, c := s[..|s| - 1], s[|s| - 1];
      assert s == front + [c];
      CharsAppend(front, [c]);
      assert Chars([c]) == [Text([c])];
      RunChars(t, front);
      RunSnoc(t, Chars(front), Text([c]));
      TextSpecAppend(t.page, t.layout, front, [c], t.foreground, t.background, t.style);
    }
  }

  /** Splitting text into single characters changes nothing on the screen. */
  lemma {:induction false} RunPerChar(t: Term, cmds: seq<Command>)
    requires TermOk(t) && ClearScrollback !in cmds
    ensures ClearScrollback !in PerChar(cmds)
    ensures Run(t, PerChar(cmds)) == Run(t, cmds)
    decreases |cmds|
  {
    PerCharKeeps(cmds, ClearScrollback);
    if cmds != [] {
      var front, last := cmds[..|cmds| - 1], cmds[|cmds| - 1];
      assert cmds == front + [last];
      assert ClearScrollback !in front;
      PerCharAppend(front, [last]);
      PerCharOne(last);
      RunPerChar(t, front);
      RunAppend(t, PerChar(front), Spread(last));
      RunSnoc(t, front, last);
      var u := Run(t, front);
      if last.Text? {
        RunChars(u, last.text);
      } else {
        RunSnoc(u, [], last);
        assert [] + [last] == [last];
      }
    }
  }

  /**
   * Two reads do to the terminal what one read of both does: applying the
   * commands of `x`, then those of its tail followed by `b`, gives the same
   * terminal as applying the commands of `x + b`, and the same residual is
   * kept.
   */
  lemma {:induction false} ChunkedRun(t: Term, x: seq<byte>, b: seq<byte>)
    requires TermOk(t) && ClearScrollback !in Parse(x + b).cmds
    ensures ClearScrollback !in Parse(x).cmds && ClearScrollback !in Parse(Parse(x).tail + b).cmds
    ensures Run(Run(t, Parse(x).cmds), Parse(Parse(x).tail + b).cmds) == Run(t, Parse(x + b).cmds)
    ensures Parse(Parse(x).tail + b).tail == Parse(x + b).tail
  {
    var one, first, second := Parse(x + b).cmds, Parse(x).cmds, Parse(Parse(x).tail + b).cmds;
    ParseChunk(x, b);
    PerCharAppend(first, second);
    PerCharKeeps(one, ClearScrollback);
    PerCharKeeps(first + second, ClearScrollback);
    RunAppend(t, first, second);
    RunPerChar(t, first + second);
    RunPerChar(t, one);
  }

  /**
   * `process_input` called twice, on `x` and then on `b`, leaves the screen
   * and the residual input as one call on `x + b` does.
   */
  lemma {:induction false} ProcessInputInTwoReads(t: Term, residual: seq<byte>, x: seq<byte>, b: seq<byte>)
    requires TermOk(t) && ClearScrollback !in Parse(residual + (x + b)).cmds
    ensures var first := Parse(residual + x);
      && ClearScrollback !in first.cmds
      && ClearScrollback !in Parse(first.tail + b).cmds
      && Run(Run(t, first.cmds), Parse(first.tail + b).cmds) == Run(t, Parse(residual + (x + b)).cmds)
      && Parse(first.tail + b).tail == Parse(residual + (x + b)).tail
  {
    assert residual + x + b == residual + (x + b);
    ChunkedRun(t, residual + x, b);
  }
}
