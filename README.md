# spotty core, modelled in Dafny

This project models the core of spotty, a terminal emulator written in Rust:

- **Escape-sequence decoder** (`src/tty/control_code.rs`). `parse` turns the bytes read from the
  pseudo-terminal into calls on a `Terminal` sink. These are text runs, invalid UTF-8, the C0
  controls BEL/BS/HT/CR/LF, the CSI, OSC and `ESC (` sequences, and invalid control sequences. It
  also returns the bytes of a sequence or UTF-8 character that the end of the input cut off. The
  sink is recorded as a sequence of `Command`s, so `Parse` is a function from bytes to
  (commands, tail). UTF-8 validation follows `core::str::from_utf8` (`valid_up_to` and
  `error_len`), which implements sections 3 and 4 of RFC 3629.
- **Screen** (`src/screen.rs`) over the **cell grid** (`src/grid.rs`).
  - `CharacterGrid` is a class over an `array` of cells, with the rectangle fill and the memmove
    row copy.
  - `Screen` is a class holding the cursor, the pen (style and colours), the behaviour flags,
    the two grids and the residual input.
  - Each method is proved against a function of the screen state before the call; those
    functions are in `ScreenSpec`. Decoded commands are applied by the same methods, through
    `Step` and `Run`.
- **Reads in pieces** (`process_input`, src/screen.rs:74-88). The residual of one read is parsed
  in front of the next. Two reads leave the same residual as one read of both. They emit the same
  commands, except that a text run cut by the read boundary arrives as two `text()` calls instead
  of one (`ChunkProperties.TextSplitAtBoundary`). On the screen this makes no difference, since
  `text` writes one character at a time (`ChunkProperties.ProcessInputInTwoReads`).
- **Texture-atlas allocator** (`src/render/texture_atlas.rs`). Each row keeps an ordered list of
  free column ranges. `keep_intersection` intersects two such lists, and `reserve` finds the
  lowest band of rows with a common free interval and carves it out of each row.
- **Colours** (`src/color.rs`): palette lookup, and the default palette built by its loops.
- **Small buffers** (`src/inline.rs`, `src/inline_str.rs`): bytes and strings kept inline when
  short, boxed otherwise.
- **Keyboard input** (`src/main.rs`): `key_press` and `paste_clipboard`, with `pty.send` modelled
  as appending to a byte sequence.

Fixed-width integers are subset types (`u8`, `u16`, `u32`). A panic in the source (a failed
`unwrap`, an index assertion, an arithmetic overflow) becomes a precondition of the member
concerned. Quirks of the source are modelled as written, and the lemmas state them. Examples:
the `fill_region` shortcut, `scroll_down` copying to row `count`, SGR 40–47 mapping to
`Index(n - 30)`, and `reserve` never trying the last band.

## Model

| member | source | states |
|---|---|---|
| ControlCode.TakeWhileIn | src/tty/control_code.rs:429-455 | the count is `Some` only when it stops before the end of the input (otherwise `Incomplete`) |
| ControlCode.TakeWhileInStops | src/tty/control_code.rs:429-448 | `take_while` counts exactly the leading bytes in range, and reports `Incomplete` exactly when every byte is in range |
| DecoderProperties.TakeWhileIs | src/tty/control_code.rs:429-448 | `take_while` stops at the first byte outside the range |
| DecoderProperties.TakeWhileExtend | src/tty/control_code.rs:429-448 | once `take_while` found its stopping byte, appending input does not change its answer |
| ControlCode.WithDefault | src/tty/control_code.rs:802-807 | a present (non-zero) argument is kept; the result is zero only when the default is |
| ArgumentProperties.SingleFromValue | src/tty/control_code.rs:809-826 | the digit loop succeeds iff every byte is a digit and `acc * 10^n + value` fits in 16 bits, and it then yields that value (checked_mul/checked_add) |
| ArgumentProperties.SingleAccepts | src/tty/control_code.rs:809-826 | `Argument::single` accepts exactly the decimal strings whose value is at most 65535, and reads their value |
| ArgumentProperties.ZeroTakesDefault | src/tty/control_code.rs:796-807 | an empty argument and an explicit 0 both take the default (`NonZeroU16::new`) |
| ArgumentProperties.MoveAtLeastOne | src/tty/control_code.rs:345-348 | `CSI A/B/C/D` emits one `move_cursor` of at least one step |
| ControlCode.Position | src/tty/control_code.rs:854-858 | the first index of a separator, or none when the bytes contain no separator |
| ControlCode.Split | src/tty/control_code.rs:828-832 | `split` yields at least one piece, and no piece holds a separator |
| ArgumentProperties.SplitCount | src/tty/control_code.rs:828-832 | splitting yields one more piece than there are separators |
| ArgumentProperties.SplitJoin | src/tty/control_code.rs:828-832 | joining the pieces with the separator gives the input back |
| ArgumentProperties.SplitTwo | src/tty/control_code.rs:828-832 | `a;b` without other separators splits into exactly `a` and `b` |
| ArgumentProperties.MultiRejectsThree | src/tty/control_code.rs:834-846 | `Argument::multi::<2>` rejects a list with more than two arguments |
| ArgumentProperties.CursorPositionOneBased | src/tty/control_code.rs:350-353 | for every parameter list, `CSI … H` succeeds iff the list splits at `;` or `:` into at most two pieces of digits worth at most 65535 each; it then emits exactly `set_cursor_pos(r-1, c-1)`, where 0 or an empty piece means the first row or column and a missing column is 0 (bare `CSI H` goes to the origin); otherwise it emits nothing |
| ArgumentProperties.PositionIs | src/tty/control_code.rs:854-858 | `position` finds the first separator |
| ArgumentProperties.PositionNone | src/tty/control_code.rs:854-870 | without separators, the whole list is the one argument |
| DispatchProperties.SgrCodeKnown | src/tty/control_code.rs:380-420 | an SGR code is handled iff it is one of 0–5, 7–9, 21–25, 27–29, 30–37, 39, 40–47, 49, 90–97 or 100–107 |
| DispatchProperties.StyleBits | src/tty/control_code.rs:387-409 | each style code selects a single bit, and different codes select different bits |
| DispatchProperties.SgrStylePairs | src/tty/control_code.rs:387-409 | codes 1–5 and 7–9 set their style, and the same code plus 20 resets that same style |
| DispatchProperties.SgrColors | src/tty/control_code.rs:411-417 | 30–37 and 90–97 set foreground `Index(n-30)` and `Index(n-90)`; 40–47 set background `Index(n-30)` as written; 100–107 set `Index(n-100)`; 39 and 49 reset |
| DispatchProperties.SgrResetAll | src/tty/control_code.rs:380-384 | code 0 resets all eight styles and both colours |
| DispatchProperties.SgrAllValid | src/tty/control_code.rs:376-424 | when every `;`-group is valid, SGR succeeds with the groups' commands in order |
| DispatchProperties.SgrStopsAtFirstInvalid | src/tty/control_code.rs:376-424 | SGR is not atomic: the groups before the first invalid one have emitted their commands, then the sequence is invalid |
| DispatchProperties.EmptySgrResets | src/tty/control_code.rs:376-384 | `CSI m` and `CSI 0 m` reset everything |
| DispatchProperties.EraseInDisplay | src/tty/control_code.rs:355-361 | `CSI n J` succeeds iff n ≤ 3: 0/1/2 clear the screen to the end, to the start or all, 3 clears the scrollback; otherwise nothing is emitted |
| DispatchProperties.EraseInLine | src/tty/control_code.rs:363-368 | `CSI n K` succeeds iff n ≤ 2, with 0/1/2 clearing the line to the end, to the start or all |
| DispatchProperties.PrivateToggles | src/tty/control_code.rs:309-333 | `CSI ? n h/l` succeeds iff the final byte is h or l and n is 1 or 2004; h enables, l disables the application cursor or bracketed paste |
| DispatchProperties.KnownFinalBytes | src/tty/control_code.rs:281-374 | only `m`, `A`–`D`, `H`, `J`, `K` end a standard sequence, and only `h`/`l` a private one |
| ControlCode.TakeFields | src/tty/control_code.rs:295-307 | when framed, the input is the parameters, the intermediates, the terminator and the rest, in that order |
| ControlCode.TakeFieldsRanges | src/tty/control_code.rs:295-307 | the first run stays in the first byte range, the second run in the second, and the terminator is in neither range that could still have continued a run |
| DecoderProperties.TakeFieldsIs | src/tty/control_code.rs:295-307 | any input made of a run in the first range, a run in the second range and a byte that stops the second run is framed into exactly those fields |
| DecoderProperties.TakeFieldsExtend | src/tty/control_code.rs:295-307 | framed fields stay the same when input is appended; only the rest grows |
| DecoderProperties.TakeFieldsSuffix | src/tty/control_code.rs:295-307 | what follows the terminator is a suffix of the input |
| DecoderProperties.CsiIncomplete | src/tty/control_code.rs:281-307 | a CSI is `Incomplete` exactly when every byte after `ESC [` could still be part of its parameter or intermediate bytes |
| DecoderProperties.CsiFraming | src/tty/control_code.rs:281-307 | parameters, intermediates, then byte t: any intermediate byte or a t outside 0x40–0x7E is `Invalid`, otherwise the parameters and t choose the command; scanning resumes after t |
| DecoderProperties.CsiFieldsNotPrefix | src/tty/control_code.rs:295-307 | a framed CSI is not a prefix still awaiting its final byte |
| DecoderProperties.CsiCutIsPrefix | src/tty/control_code.rs:295-307 | a CSI whose runs reach the end of the input is such a prefix |
| ControlCode.ControlSequence | src/tty/control_code.rs:281-293 | a complete CSI consumes at least one byte, and an incomplete one emits nothing |
| ControlCode.OperatingSystemCommand | src/tty/control_code.rs:237-279 | a complete OSC consumes at least one byte, and an incomplete one emits nothing |
| DecoderProperties.OscIncomplete | src/tty/control_code.rs:237-242 | an OSC is `Incomplete` exactly when every byte after `ESC ]` is printable ASCII |
| DecoderProperties.OscFraming | src/tty/control_code.rs:237-246 | only BEL terminates an OSC (anything else is `Invalid`), and scanning resumes after the terminator |
| DecoderProperties.OscCodes | src/tty/control_code.rs:248-276 | `;` is required; `;?` is invalid; codes 0 and 2 set the window title to the text after `;`; 1 and 3 emit nothing; other codes are invalid |
| ControlCode.EscapeSequence | src/tty/control_code.rs:219-235 | a complete escape sequence consumes at least one byte, and an incomplete one emits nothing |
| ControlCode.ControlAt | src/tty/control_code.rs:205-217 | a complete control sequence consumes at least one byte, and an incomplete one emits nothing |
| DecoderProperties.ControlAtExtend | src/tty/control_code.rs:205-235 | a complete (parsed or invalid) sequence decodes the same way whatever follows it |
| DecoderProperties.IncompleteStaysPending | src/tty/control_code.rs:205-235 | a sequence incomplete at some length was incomplete at every shorter length |
| DecoderProperties.ControlSequenceExtend | src/tty/control_code.rs:281-307 | a complete CSI decodes the same way whatever follows it |
| DecoderProperties.OperatingSystemCommandExtend | src/tty/control_code.rs:237-279 | a complete OSC decodes the same way whatever follows it |
| DecoderProperties.EscapeSequenceExtend | src/tty/control_code.rs:219-235 | a complete escape sequence decodes the same way whatever follows it |
| DecoderProperties.ControlAtSuffix | src/tty/control_code.rs:205-235 | what the iterator holds after a complete sequence is a suffix of its input |
| DecoderProperties.ControlSequenceSuffix | src/tty/control_code.rs:281-307 | the bytes left after a complete CSI are a suffix of its input |
| DecoderProperties.OperatingSystemCommandSuffix | src/tty/control_code.rs:237-247 | the bytes left after a complete OSC are a suffix of its input |
| DecoderProperties.EscapeSequenceSuffix | src/tty/control_code.rs:219-235 | the bytes left after a complete escape sequence are a suffix of its input |
| DecoderProperties.ControlSequenceNoText | src/tty/control_code.rs:281-424 | a CSI never emits `text()` |
| DecoderProperties.EscapeSequenceNoText | src/tty/control_code.rs:219-235 | an escape sequence never emits `text()` |
| DecoderProperties.ParseAtControl | src/tty/control_code.rs:148-167 | input starting with a control byte: an incomplete sequence is returned whole; otherwise its commands (plus `invalid_control_sequence` of the consumed bytes when invalid) precede the parse of the rest |
| DecoderProperties.SingleByteControl | src/tty/control_code.rs:205-213 | 0x07/0x08/0x09/0x0D/0x0A each produce exactly one bell/backspace/tab/carriage_return/line_feed |
| DecoderProperties.OtherControlByte | src/tty/control_code.rs:148-217 | any other ASCII control byte except ESC (DEL included) is reported alone as an invalid sequence, and scanning resumes right after it |
| DecoderProperties.UnknownEscape | src/tty/control_code.rs:219-232 | ESC followed by anything but `[`, `]`, `(` is reported as those two bytes, and scanning resumes after them |
| DecoderProperties.CharsetDesignation | src/tty/control_code.rs:227-229 | `ESC (` consumes one more byte and emits nothing; cut off before it, it is returned as the tail |
| ControlCode.FirstControl | src/tty/control_code.rs:144-169 | the index of the first ASCII control byte, or the length when there is none |
| DecoderProperties.EmitTextRebuilds | src/tty/control_code.rs:173-201 | the encodings of the `text()` payloads, the `invalid_utf8()` payloads and the returned tail, concatenated in order, rebuild the run |
| DecoderProperties.EmitTextCommands | src/tty/control_code.rs:173-201 | `emit_text` emits only text and invalid sequences of one to three bytes |
| DecoderProperties.EmitTextTail | src/tty/control_code.rs:187-189 | a non-empty tail of `emit_text` is a character cut off by the end of the run |
| DecoderProperties.EmitErrorCommands | src/tty/control_code.rs:180-195 | after the first UTF-8 error, `emit_text` emits only text and invalid sequences of one to three bytes |
| DecoderProperties.EmitErrorTail | src/tty/control_code.rs:187-189 | the tail returned after an error is a truncated character |
| DecoderProperties.CutOffIsTruncated | src/tty/control_code.rs:181-189 | when the first error is not an invalid sequence (`error_len` is `None`), everything from `valid_up_to` on is returned, and it is a truncated character |
| DecoderProperties.ValidTextClean | src/tty/control_code.rs:176-178 | valid UTF-8 without ASCII control bytes decodes to text without control characters |
| DecoderProperties.EmitTextClean | src/tty/control_code.rs:173-201 | on a run without ASCII control bytes, no `text()` payload of `emit_text` holds a control character |
| DecoderProperties.EmitErrorClean | src/tty/control_code.rs:180-195 | likewise for the part after the first UTF-8 error |
| DecoderProperties.ParseAtControlClean | src/tty/control_code.rs:148-167 | the text before a control sequence, and the control sequence itself, add no control characters to the `text()` payloads |
| DecoderProperties.TextTail | src/tty/control_code.rs:145-146 | without control bytes, the tail is a suffix and, when not empty, a truncated character of 1–3 bytes |
| DecoderProperties.TextBeforeRebuilds | src/tty/control_code.rs:148-153 | the text before a control byte, with a cut-off character reported as invalid UTF-8, rebuilds those bytes |
| DecoderProperties.ParseTextClean | src/tty/control_code.rs:140-171 | no `text()` payload of `parse` contains an ASCII control character |
| DecoderProperties.ControlAtNoText | src/tty/control_code.rs:205-424 | control sequences never emit `text()` |
| DecoderProperties.ParseSplit | src/tty/control_code.rs:148-167 | one round of `parse`: the text before the first control byte, then parsing resumes at that byte (the sequence's commands, `invalid_control_sequence` of the consumed bytes when invalid, or the whole sequence as the tail when incomplete) |
| DecoderProperties.ParseControlClean | src/tty/control_code.rs:155-167 | a round that starts at a control byte adds no `text()` payload of its own: its payloads are those of the parse of what follows |
| DecoderProperties.ParseWithoutControl | src/tty/control_code.rs:145-146 | without a control byte, `parse` is `emit_text` |
| DecoderProperties.ParseStopsAtIncomplete | src/tty/control_code.rs:155-158 | an incomplete sequence is returned whole, from its control byte on |
| DecoderProperties.ParseCarriesOn | src/tty/control_code.rs:155-167 | after a complete sequence, parsing carries on with what follows it |
| DecoderProperties.ParseTail | src/tty/control_code.rs:140-171 | `parse` returns a suffix of its input; a non-empty one is an incomplete control sequence, or a control-free UTF-8 character of 1–3 bytes cut off by the end |
| Utf8.StepAt | src/tty/control_code.rs:174-197 | one validation step: a character of 1–4 bytes, an invalid sequence of 1–3 bytes (`error_len`), or a truncated character of 1–3 bytes; single-byte characters are exactly the ASCII bytes |
| Utf8.StepAtPrefix | src/tty/control_code.rs:174-197 | a step that is not truncated gives the same answer whatever bytes follow |
| Utf8.ValidUpTo | src/tty/control_code.rs:175-181 | `valid_up_to` is never beyond the end of the input |
| Utf8.EncodeString | src/inline.rs:88-91 | the UTF-8 encoding of a text has at least one byte per character |
| Utf8.Encode | src/main.rs:139-143 | `char::encode_utf8` yields one to four bytes, one exactly for ASCII |
| Utf8.EncodeThenStep | src/main.rs:139-143 | validating an encoded character finds one complete character of that length, which decodes back to it |
| Utf8.StepThenEncode | src/tty/control_code.rs:174-186 | every character the validator accepts is the encoding of the character it decodes to |
| Utf8.EncodeStringAppend | src/inline.rs:88-91 | the encoding of a string distributes over concatenation |
| Utf8.EncodeStringValid | src/inline.rs:88-91 | every encoded string is valid UTF-8 and decodes back to itself |
| Utf8.DecodeStringEncode | src/inline.rs:108-115 | every valid byte string is the encoding of what it decodes to |
| Utf8.ValidUpToAppend | src/tty/control_code.rs:174-186 | validation walks unchanged over a valid prefix |
| Utf8.ValidPrefixIsValid | src/tty/control_code.rs:180-184 | the prefix up to `valid_up_to` is valid on its own |
| Utf8.AsciiByteOfEncoding | src/main.rs:194-197 | an ASCII byte of an encoding comes from that ASCII character of the string |
| Colors.IntoRgb | src/color.rs:12-17 | an index looks the palette up; an RGB triple stands for itself |
| Colors.RgbFromU32 | src/color.rs:130-136 | the three bytes recombine to the low 24 bits of the input, most significant first |
| Colors.CubeIndex | src/color.rs:171-181 | cube coordinates name palette indices 16–231, and can be read back from them |
| Colors.DefaultCube | src/color.rs:171-181 | entry `16 + 36r + 6g + b` is `[255r/6, 255g/6, 255b/6]` |
| Colors.CubeCoversOnce | src/color.rs:171-181 | each index 16–231 is the cube slot of exactly one coordinate triple |
| Colors.DefaultGreys | src/color.rs:184-190 | entry `232 + i` is the grey `255i/24`, rising with `i` |
| Colors.DefaultColorsResolve | src/color.rs:123-157 | the default foreground is base colour 15 and the background base colour 0; the cursor uses the foreground |
| Colors.BuildDefaultPalette | src/color.rs:129-193 | the nested loops building `DEFAULT_PALETTE` produce the default palette, entry by entry |
| Grid.EmptyCells | src/grid.rs:59-65 | a fresh buffer of `n` cells, all `GridCell::empty` |
| Grid.IntoExclusiveRange | src/grid.rs:166-180 | the result's ends are at most `max`, and it contains exactly the indices below `max` that the bounds contain |
| Grid.OffsetBelow | src/grid.rs:125-139 | an index inside the grid addresses a cell of the buffer |
| Grid.OffsetUnique | src/grid.rs:125-153 | two positions inside the grid address the same cell only if they are equal |
| Grid.FillRegionCell | src/grid.rs:87-111 | `fill_region` sets exactly the cells in the rows and columns of the bounds and keeps every other cell; on the shortcut it sets whole rows |
| Grid.FillShortcutTakesLastColumn | src/grid.rs:96-100 | the shortcut compares with `max_col`: a request for columns `..=cols-2` also overwrites column `cols-1` |
| Grid.FillSpec | src/grid.rs:87-111 | `fill_region` keeps the buffer size; its cells are stated by `FillRegionCell` |
| Grid.CopyRowsCell | src/grid.rs:113-123 | after `copy_rows(a..b, dst)`, rows `dst..dst+(b-a)` hold the old rows `a..b`, whatever the overlap, and every other row is kept |
| Grid.CopyFitsRows | src/grid.rs:113-123 | copying rows inside the grid to a destination where they fit meets the demands of `copy_within` |
| Grid.CopySpec | src/grid.rs:113-123 | `copy_rows` keeps the buffer size; its cells are stated by `CopyRowsCell` |
| Grid.CharacterGrid.constructor | src/grid.rs:59-65 | `rows * cols` empty cells |
| Grid.CharacterGrid.Size | src/grid.rs:67-69 | the dimensions multiply to the buffer length |
| Grid.CharacterGrid.MaxRow | src/grid.rs:83-85 | the last row (`rows - 1`); it needs a row to exist |
| Grid.CharacterGrid.MaxCol | src/grid.rs:79-81 | the last column (`cols - 1`); it needs a column to exist |
| Grid.CharacterGrid.Set | src/grid.rs:141-153 | indexing asserts a position inside the grid; exactly the addressed cell `col + row * cols` changes |
| Grid.CharacterGrid.FillRegion | src/grid.rs:87-111 | the buffer afterwards is `FillSpec` of the buffer before |
| Grid.CharacterGrid.CopyRows | src/grid.rs:113-123 | the buffer afterwards is `CopySpec` of the buffer before (memmove) |
| Grid.CharacterGrid.FillSlice | src/grid.rs:108 | `fill` sets exactly the cells of the slice `lo..hi` |
| Grid.CharacterGrid.FillRowBlock | src/grid.rs:96-100 | the shortcut fills the whole rows of the block as one slice |
| Grid.CharacterGrid.FillColumns | src/grid.rs:102-109 | each row of the block has the columns of the bounds filled |
| Grid.CharacterGrid.CopyWithin | src/grid.rs:121 | `copy_within` moves the slice with memmove semantics |
| ScreenSpec.Blank | src/screen.rs:477-484 | `empty_cell` is the empty cell in the current style, so it equals `GridCell::empty` iff the style is empty |
| ScreenSpec.ScrollUpCell | src/screen.rs:243-259 | region rows take the row `count` below, the last `count` are blank, other rows are kept; nothing changes when `start + count > end` |
| ScreenSpec.ScrollDownCell | src/screen.rs:225-241 | as written: rows `start..count` are blank, rows from `count` on take the old rows from `start` on, other rows are kept |
| ScreenSpec.ScrollDownLeavesRegion | src/screen.rs:225-241 | a region starting below row `count` has its first row copied to row `count`, outside the region |
| ScreenSpec.ScrolledUp | src/screen.rs:243-259 | `scroll_up` keeps the buffer size; its cells are stated by `ScrollUpCell` |
| ScreenSpec.ScrolledDown | src/screen.rs:225-241 | `scroll_down` keeps the buffer size; its cells are stated by `ScrollDownCell` |
| ScreenSpec.ClearEnd | src/screen.rs:195-199 | `row.saturating_add(count).min(end)` is `row + min(count, end - row)` inside the region |
| ScreenSpec.InsertLinesCell | src/screen.rs:209-223 | with `k = min(count, end - row)`: rows `row..row+k` are blank, the rows below take the rows `k` higher, others are kept |
| ScreenSpec.DeleteLinesCell | src/screen.rs:192-207 | with `k = min(count, end - row)`: rows `row..end-k` take the rows `k` lower, the last `k` region rows are blank, others are kept |
| ScreenSpec.InsertedLines | src/screen.rs:209-223 | `insert_lines` keeps the buffer size; its cells are stated by `InsertLinesCell` |
| ScreenSpec.DeletedLines | src/screen.rs:192-207 | `delete_lines` keeps the buffer size; its cells are stated by `DeleteLinesCell` |
| ScreenSpec.ClearLineCell | src/screen.rs:333-345 | `clear_line` blanks the line from the cursor, up to it, or entirely, and nothing else (except the `fill_region` shortcut) |
| ScreenSpec.ClearScreenCell | src/screen.rs:347-361 | `clear_screen` blanks from the cursor to the end, from the start to the cursor, or everything, and nothing else |
| ScreenSpec.EraseCell | src/screen.rs:367-370 | `erase(count)` blanks the `count` cells from the cursor within the line, and nothing else (except the shortcut) |
| ScreenSpec.ClearedLine | src/screen.rs:333-345 | `clear_line` keeps the buffer size; its cells are stated by `ClearLineCell` |
| ScreenSpec.ClearedScreen | src/screen.rs:347-361 | `clear_screen` keeps the buffer size; its cells are stated by `ClearScreenCell` |
| ScreenSpec.Erased | src/screen.rs:367-370 | `erase` keeps the buffer size; its cells are stated by `EraseCell` |
| ScreenSpec.AdvanceRowSpec | src/screen.rs:440-447 | advancing a row keeps the page well formed: the cursor stays on a row of the grid |
| ScreenSpec.AdvanceColumnSpec | src/screen.rs:431-438 | the page stays well formed: the column may reach `cols` (a pending wrap) but not beyond |
| ScreenSpec.Wrapped | src/screen.rs:449-454 | after the wrap check the cursor is on a column of the grid |
| ScreenSpec.InsertCharSpec | src/screen.rs:449-462 | the page stays well formed |
| ScreenSpec.InsertCharWrites | src/screen.rs:449-462 | `insert_char` wraps from column `cols`, writes the cell at the wrapped cursor, changes no other cell, and leaves the column at most `cols` |
| ScreenSpec.NoWrapBeforeLastColumn | src/screen.rs:449-454 | below column `cols` there is no wrap |
| ScreenSpec.TextSpec | src/screen.rs:129-135 | writing text keeps the page well formed |
| ScreenSpec.TextOnOneLine | src/screen.rs:129-135 | text that fits on the line is written into consecutive cells in the pen's colours and style, and the cursor ends just after it |
| ScreenSpec.NextTabStopLeast | src/screen.rs:148-157 | the next tab stop is the least multiple of 8 beyond the column |
| ScreenSpec.TabSpec | src/screen.rs:148-157 | a tab keeps the page well formed |
| ScreenSpec.TabStopsOnMultipleOfEight | src/screen.rs:148-157 | `tab` always advances and stops at a multiple of 8 (or wraps to column 0) |
| ScreenSpec.Backspaced | src/screen.rs:159-167 | one column left, or from column 0 to column `cols - 1` of the same row |
| ScreenSpec.MovedCursor | src/screen.rs:261-284 | up and left saturate at 0; down and right clamp to `max_row` and `max_col`; the other coordinate is kept |
| ScreenSpec.Clamped | src/screen.rs:286-310 | row and column are each clamped to the last row and column |
| ScreenSpec.VirtualCursor | src/screen.rs:106-119 | always inside the grid: a pending wrap is drawn at the start of the next row, or at the bottom-right cell past the last row |
| ScreenSpec.Toggled | src/screen.rs:407-429 | the layout and cursor are kept |
| ScreenSpec.ToggleIdempotent | src/screen.rs:407-429 | a toggle sets its flag, and repeating it changes nothing |
| ScreenSpec.AlternateBufferRoundTrip | src/screen.rs:407-429 | entering the alternate buffer shows the alternate grid; leaving it restores the screen as it was |
| ScreenSpec.Step | src/screen.rs:123-405 | every command keeps the screen well formed and its layout unchanged |
| ScreenSpec.Run | src/screen.rs:86 | applying a batch of commands keeps the screen well formed and its layout unchanged |
| ScreenSpec.RunSnoc | src/screen.rs:86 | applying one more command after a batch is one more `Step` |
| ScreenSpec.RunAppend | src/screen.rs:74-88 | applying two batches of commands is applying their concatenation |
| ScreenSpec.PenCommandsKeepPage | src/screen.rs:372-400 | style and colour commands never touch the cells or the cursor; set/reset add or remove exactly their style bits |
| Screens.Screen.constructor | src/screen.rs:42-63 | blank grids, cursor at the origin, the whole grid as scrolling region, default pen and flags, no residual input |
| Screens.Screen.ResizeGrid | src/screen.rs:65-72 | new blank grids, cursor at the origin, region `0..rows`; pen and flags are kept |
| Screens.Screen.ProcessInput | src/screen.rs:74-88 | the residual and the new input are parsed together, every command is applied in order, and the residual becomes exactly the tail `parse` returned |
| ChunkProperties.ParseChunk | src/tty/control_code.rs:140-171 | where a read ends does not matter to `parse`: parsing `x`, then its tail followed by `b`, leaves the same tail as parsing `x + b`, and emits the same commands once text runs are split into single characters |
| ChunkProperties.TextSplitAtBoundary | src/tty/control_code.rs:140-171 | the split is real: `abc` read at once is one `text()` call, `ab` then `c` are two, so the command sequences themselves differ |
| ChunkProperties.ControlChunk | src/tty/control_code.rs:148-167 | the chunk property when the first read holds a control byte |
| ChunkProperties.ControlTurn | src/tty/control_code.rs:148-167 | a complete control sequence is decoded alike whatever input follows, and parsing resumes after it; an incomplete one stops the parse and is parsed afresh once more input arrives |
| ChunkProperties.TextOnlyChunk | src/tty/control_code.rs:145-146 | the chunk property when neither read holds a control byte |
| ChunkProperties.TextThenControlChunk | src/tty/control_code.rs:145-153 | the chunk property when only the second read holds a control byte, so the text before it spans the boundary |
| ChunkProperties.TextLeavesText | src/tty/control_code.rs:145-146 | without control bytes `parse` is `emit_text`, and what it leaves holds no control byte |
| ChunkProperties.TextBeforeChunk | src/tty/control_code.rs:148-153 | the text before a control byte, in two pieces, emits the same characters and invalid sequences |
| ChunkProperties.EmitTextChunk | src/tty/control_code.rs:173-201 | `emit_text` in two pieces: the same tail, and the same characters and invalid sequences in the same order |
| ChunkProperties.EmitErrorChunk | src/tty/control_code.rs:180-195 | the same for a run that is not valid throughout |
| ChunkProperties.ErrorFromChunk | src/tty/control_code.rs:180-195 | the same from where the `Err` arm starts |
| ChunkProperties.BadTurn | src/tty/control_code.rs:190-194 | an invalid sequence is reported as `invalid_utf8` and decoding carries on after it, whatever follows |
| ChunkProperties.EmitTextAfterValid | src/tty/control_code.rs:173-201 | valid bytes in front of a run only add their characters in front; the tail is unchanged |
| ChunkProperties.ErrorAfterValid | src/tty/control_code.rs:180-195 | likewise after the first UTF-8 error |
| ChunkProperties.ErrorFromSplit | src/tty/control_code.rs:175-182 | valid bytes followed by bytes that do not start a character: `valid_up_to` stops right there and the `Err` arm starts |
| ChunkProperties.SplitAtError | src/tty/control_code.rs:175-182 | a run that is not valid throughout is its valid prefix, then where the `Err` arm starts |
| ChunkProperties.ErrorFromFront | src/tty/control_code.rs:180-185 | more valid text in front only lengthens the first `text()` call of the `Err` arm |
| ChunkProperties.DecodeStringAppend | src/tty/control_code.rs:176-178 | two valid runs together are valid and decode to the two texts together |
| ChunkProperties.ParseAfterText | src/tty/control_code.rs:148-167 | `parse` on control-free text followed by a control byte: the text, then the turn at that byte |
| ChunkProperties.ParseFromControl | src/tty/control_code.rs:148-167 | from a control byte on, `parse` is one turn at that byte |
| ChunkProperties.SplitAtControl | src/tty/control_code.rs:144-153 | an input with a control byte is the control-free text before it, then the rest from that byte on |
| ChunkProperties.FirstControlAppend | src/tty/control_code.rs:144-146 | appending input does not move a control byte already found, and otherwise the search continues into it |
| ChunkProperties.ConsumedAppend | src/tty/control_code.rs:155-166 | the bytes a control sequence consumed do not depend on what follows the input |
| ChunkProperties.PerCharKeeps | src/tty/control_code.rs:140-171 | splitting text into single characters keeps every other command: it occurs afterwards exactly when it did before |
| ChunkProperties.RunChars | src/screen.rs:129-135 | `text(s)` does to the screen what one `text()` call per character does |
| ChunkProperties.RunPerChar | src/screen.rs:86 | splitting text runs into single characters changes nothing on the screen |
| ChunkProperties.TextSpecAppend | src/screen.rs:129-135 | writing `a + b` is writing `a`, then `b` |
| ChunkProperties.ChunkedRun | src/screen.rs:74-88 | two reads do to the screen what one read of both does, and keep the same residual |
| ChunkProperties.ProcessInputInTwoReads | src/screen.rs:74-88 | `process_input` on `x` then on `b` leaves the screen and the residual as one call on `x + b` does |
| Screens.Screen.ApplyAll | src/screen.rs:86 | the decoded commands are applied in order (`Run`) |
| Screens.Screen.Apply | src/screen.rs:123-405 | one command is dispatched to its method (`Step`) |
| Screens.Screen.ApplyText | src/screen.rs:129-142 | text and invalid UTF-8 are applied as `Step` says |
| Screens.Screen.ApplyCursor | src/screen.rs:148-179 | the cursor commands are applied as `Step` says |
| Screens.Screen.ApplyClear | src/screen.rs:333-361 | the clear commands are applied as `Step` says |
| Screens.Screen.ApplyStyle | src/screen.rs:124-146 | style commands, `bell` and `invalid_control_sequence` are applied as `Step` says |
| Screens.Screen.ApplyColor | src/screen.rs:382-400 | colour commands are applied as `Step` says |
| Screens.Screen.Text | src/screen.rs:129-135 | `TextSpec` of the page before, in the current pen |
| Screens.Screen.InvalidUtf8 | src/screen.rs:137-142 | writes one U+FFFD like `text` |
| Screens.Screen.InsertChar | src/screen.rs:449-462 | `InsertCharSpec` of the page before |
| Screens.Screen.AdvanceColumn | src/screen.rs:431-438 | `AdvanceColumnSpec` of the page before |
| Screens.Screen.AdvanceRow | src/screen.rs:440-447 | `AdvanceRowSpec` of the page before: down one row inside the region, or `scroll_up(1)` at its last row |
| Screens.Screen.Tab | src/screen.rs:148-157 | `TabSpec` of the page before |
| Screens.Screen.Backspace | src/screen.rs:159-167 | only the cursor changes, to `Backspaced` |
| Screens.Screen.CarriageReturn | src/screen.rs:169-173 | only the column changes, to 0 |
| Screens.Screen.LineFeed | src/screen.rs:175-179 | `advance_row` |
| Screens.Screen.ReverseLineFeed | src/screen.rs:181-190 | column 0, then up one row, or `scroll_down(1)` at the region's first row |
| Screens.Screen.MoveCursor | src/screen.rs:261-284 | only the cursor changes, to `MovedCursor` |
| Screens.Screen.SetCursorPos | src/screen.rs:286-289 | only the cursor changes, to the clamped position |
| Screens.Screen.SetCursorRow | src/screen.rs:291-294 | only the row changes, clamped |
| Screens.Screen.SetCursorCol | src/screen.rs:296-299 | only the column changes, clamped |
| Screens.Screen.SaveCursor | src/screen.rs:301-304 | the saved cursor becomes the cursor |
| Screens.Screen.RestoreCursor | src/screen.rs:306-310 | the cursor becomes the saved one, clamped to the grid |
| Screens.Screen.SetCursorColor | src/screen.rs:317-319 | only the cursor colour changes |
| Screens.Screen.ResetCursorColor | src/screen.rs:321-324 | the cursor colour becomes `DEFAULT_CURSOR` |
| Screens.Screen.SetScrollingRegion | src/screen.rs:326-331 | both ends are clamped to the number of rows |
| Screens.Screen.ScrollUp | src/screen.rs:243-259 | the cells become `ScrolledUp` of the cells before |
| Screens.Screen.ScrollDown | src/screen.rs:225-241 | the cells become `ScrolledDown` of the cells before (copy to row `count`) |
| Screens.Screen.InsertLines | src/screen.rs:209-223 | the cells become `InsertedLines` of the cells before |
| Screens.Screen.DeleteLines | src/screen.rs:192-207 | the cells become `DeletedLines` of the cells before |
| Screens.Screen.ClearLine | src/screen.rs:333-345 | the cells become `ClearedLine` of the cells before |
| Screens.Screen.ClearScreen | src/screen.rs:347-361 | the cells become `ClearedScreen` of the cells before |
| Screens.Screen.Erase | src/screen.rs:367-370 | the cells become `Erased` of the cells before |
| Screens.Screen.ClearCurrentLine | src/screen.rs:464-466 | `fill_region` of the cursor's row with the empty cell of the current style |
| Screens.Screen.ClearRegion | src/screen.rs:468-475 | `fill_region` with the empty cell of the current style |
| Screens.Screen.SetCharacterStyle | src/screen.rs:372-375 | the styles are added to the current ones |
| Screens.Screen.ResetCharacterStyle | src/screen.rs:377-380 | the styles are removed from the current ones |
| Screens.Screen.SetForegroundColor | src/screen.rs:382-385 | only the foreground changes |
| Screens.Screen.ResetForegroundColor | src/screen.rs:387-390 | the foreground becomes `DEFAULT_FOREGROUND` |
| Screens.Screen.SetBackgroundColor | src/screen.rs:392-395 | only the background changes |
| Screens.Screen.ResetBackgroundColor | src/screen.rs:397-400 | the background becomes `DEFAULT_BACKGROUND` |
| Screens.Screen.SetWindowTitle | src/screen.rs:402-405 | only the title changes |
| Screens.Screen.ToggleBehaviour | src/screen.rs:407-429 | the state becomes `Toggled`: the grids swap only when the alternate-buffer flag changes |
| FreeRanges.Len | src/render/texture_atlas.rs:89-91 | the columns of the range are exactly `start..start+len` |
| FreeRanges.Split | src/render/texture_atlas.rs:93-99 | `split(x)` succeeds iff the range contains `x`, yielding `start..x` and `x..end` |
| FreeRanges.SplitCovers | src/render/texture_atlas.rs:93-104 | the parts of a split are adjacent, cover the range exactly, and their lengths add up |
| FreeRanges.IntersectCorrect | src/render/texture_atlas.rs:106-159 | the intersection of two ordered lists is ordered, each of its ranges lies within one range of each list, and it covers exactly the common columns |
| FreeRanges.IntersectKeeps | src/render/texture_atlas.rs:106-159 | a non-empty range inside one range of each list lies inside one range of the intersection |
| FreeRanges.RangeIntersectExample | src/render/texture_atlas.rs:161-170 | `[0,10)` intersected with `[2,4),[8,10)` is `[2,4),[8,10)` |
| FreeRanges.IntersectStep | src/render/texture_atlas.rs:112-155 | one step of the loop, by case: `a` before `b` drops `a`; `a` after `b` drops `b`; otherwise the overlap is pushed and the longer range's remainder carries on |
| FreeRanges.NextRange | src/render/texture_atlas.rs:109-122 | `a_iter.next()` yields the next range of the list, or none at its end |
| FreeRanges.IntersectWithRange | src/render/texture_atlas.rs:113-155 | the inner loop pushes the overlaps with one range of the second list, leaving the rest of the intersection to be computed |
| FreeRanges.KeepIntersection | src/render/texture_atlas.rs:106-159 | the loops compute `Intersect` |
| Atlas.FullRowsFree | src/render/texture_atlas.rs:15-21 | in a fresh atlas every row is well formed, and exactly the columns `0..size` are free |
| Atlas.FullRows | src/render/texture_atlas.rs:19 | `size` rows, each the single range `0..size` |
| Atlas.Retain | src/render/texture_atlas.rs:32 | `retain` keeps exactly the ranges at least `w` wide |
| Atlas.RetainOrdered | src/render/texture_atlas.rs:32 | dropping ranges keeps a list ordered |
| Atlas.RetainKeepsWithin | src/render/texture_atlas.rs:32 | a range at least `w` wide that lies within the list still does after `retain` |
| Atlas.ShortestFit | src/render/texture_atlas.rs:38-41 | none iff no range is wide enough; otherwise a narrowest wide-enough range, the first among equals |
| Atlas.CandidatesSound | src/render/texture_atlas.rs:28-36 | the band's candidates are ordered, wide enough, and lie within the starting columns |
| Atlas.CandidatesInBand | src/render/texture_atlas.rs:28-36 | every candidate lies within a free range of each row of the band |
| Atlas.CandidatesComplete | src/render/texture_atlas.rs:28-36 | a wide-enough range free in every row of the band survives as a candidate |
| Atlas.BandSound | src/render/texture_atlas.rs:28-48 | the start of the chosen candidate can carve `w` columns from every row of the band |
| Atlas.FirstFitSound | src/render/texture_atlas.rs:27-76 | a returned `[x, y]` lies in the atlas with its band above row `size - h`, and columns `x..x+w` were free in every row of the band |
| Atlas.BandComplete | src/render/texture_atlas.rs:28-46 | a band where some interval can be carved from every row has a candidate |
| Atlas.FirstFitComplete | src/render/texture_atlas.rs:27-79 | `reserve` takes the lowest band that has room: if the band at `y'` has room, one no higher is found |
| Atlas.FirstContaining | src/render/texture_atlas.rs:52-53 | the first range containing `x`, or none |
| Atlas.CarvedParts | src/render/texture_atlas.rs:54-69 | the surviving parts are ordered, lie within the range, and hold its columns outside `x..x+w` |
| Atlas.CarveIsReplace | src/render/texture_atlas.rs:52-73 | carving replaces the range holding `x` with its surviving parts |
| Atlas.CarveCorrect | src/render/texture_atlas.rs:50-74 | carving keeps the row ordered and in bounds, and removes exactly columns `x..x+w` |
| Atlas.CarvedBandCorrect | src/render/texture_atlas.rs:50-74 | every band row loses exactly `x..x+w`, all rows stay well formed, and the other rows are unchanged |
| Atlas.CarvedDisjoint | src/render/texture_atlas.rs:50-74 | a later reservation in a carved row is disjoint from `x..x+w` |
| Atlas.CarvedBand | src/render/texture_atlas.rs:50-74 | carving a band keeps the number of rows |
| Atlas.TextureAtlas.constructor | src/render/texture_atlas.rs:15-21 | `size` fits a `u16`; every row is the single range `0..size` |
| Atlas.TextureAtlas.BandColumns | src/render/texture_atlas.rs:28-36 | the loop computes the band's candidates |
| Atlas.TextureAtlas.CarveRow | src/render/texture_atlas.rs:51-73 | only row `y` changes, to `Carve` of itself |
| Atlas.TextureAtlas.CarveBand | src/render/texture_atlas.rs:50-74 | the rows become `CarvedBand` of the rows before |
| Atlas.TextureAtlas.Reserve | src/render/texture_atlas.rs:23-80 | the result is `FirstFit`; on `None` nothing changes; on `Some` the band is carved and the rows stay well formed |
| Inline.New | src/inline.rs:17-29 | inline exactly when the slice fits in 22 bytes, with the unused bytes zero; dereferencing gives the slice back |
| Inline.Deref | src/inline.rs:56-65 | the first `len` bytes (`len` ≤ 22), or the boxed slice |
| Inline.FromByte | src/inline.rs:32-36 | a one-byte string, always inline |
| Inline.NewStr | src/inline.rs:88-106 | holds the text's UTF-8 encoding, inline exactly when it fits |
| Inline.DerefStr | src/inline.rs:108-115 | the text whose encoding the bytes are |
| Inline.FromChar | src/inline.rs:94-100 | always inline, holding the 1–4 byte encoding of the character |
| Inline.NewStrRoundTrip | src/inline.rs:88-115 | dereferencing `new(text)` yields the text, whichever variant holds it |
| Inline.FromCharRoundTrip | src/inline.rs:94-115 | `InlineStr::from(ch)` dereferences to the one-character text |
| InlineText.Deref | src/inline_str.rs:52-65 | the text whose encoding is the first `length` bytes, or the boxed text |
| InlineText.New | src/inline_str.rs:20-35 | inline iff `text.len()` (the UTF-8 length) is at most 22, with `length` that byte count; dereferencing gives the text back |
| InlineText.FromChar | src/inline_str.rs:44-50 | always inline, holding the encoding of the character, and dereferences to it |
| InlineText.CanonicalIsNew | src/inline_str.rs:20-35 | a value with `new`'s shape (zero padding, inline iff short) is what `new` builds from its own text |
| InlineText.EqualityIsTextual | src/inline_str.rs:3-35 | under the derived `PartialEq`, two values built by `new` are equal iff their texts are |
| InlineText.NewInjective | src/inline_str.rs:20-35 | different texts give different values |
| Keys.PlainCharacter | src/main.rs:139-143 | a character with no modifier or only SHIFT is sent as its UTF-8 encoding, which decodes back to it |
| Keys.ControlLetter | src/main.rs:128-147 | CONTROL + letter sends the single byte `lowercase - 'a' + 1` (1–26), before the ALT check |
| Keys.ControlIgnoresCase | src/main.rs:144-147 | the CONTROL byte does not depend on the letter's case |
| Keys.MetaLetter | src/main.rs:128-150 | a pressed SUPER, which the swap turns into ALT, plus a letter without CONTROL sends ESC followed by the letter |
| Keys.Shortcuts | src/main.rs:128-154 | a pressed ALT alone, which the swap turns into SUPER, with `v`, `-` or `=` pastes, decreases or increases the font size |
| Keys.IgnoredExactly | src/main.rs:138-158 | a key is ignored iff it is a character that falls through every branch |
| Keys.EncodeCharRoundTrip | src/main.rs:139-143 | the encoding of a character is valid UTF-8 and decodes to that character |
| Keys.FixedKeysDistinct | src/main.rs:162-178 | different named keys send different bytes |
| Keys.FixedKeysIgnoreModifiers | src/main.rs:162-178 | named keys ignore the modifiers, except Enter: with a pressed SUPER (ALT once swapped) it sends ESC `\r` |
| Keys.StripEscapes | src/main.rs:196 | the result is no longer than the text and holds no ESC |
| Keys.StripEscapesAppend | src/main.rs:196 | stripping distributes over concatenation |
| Keys.StripEscapesKeeps | src/main.rs:196 | a text without ESC is left as it is (stripping is idempotent) |
| Keys.StripEscapesCounts | src/main.rs:196 | every character other than ESC survives as often as it occurs |
| Keys.EncodedWithoutEscape | src/main.rs:196-197 | the encoding of a text without ESC holds no ESC byte |
| Keys.PasteIsFramed | src/main.rs:194-206 | the payload decodes to the clipboard text without ESC and holds no ESC byte; in bracketed mode it sits between `ESC [200~` and `ESC [201~` and cannot end the bracket early |
| Keys.Terminal.PasteFromClipboard | src/main.rs:194-206 | no clipboard text: nothing is sent; otherwise the paste bytes are appended to what was sent |
| Keys.Terminal.KeyPress | src/main.rs:125-182 | the key's bytes are appended (or its shortcut runs) and the terminal is marked dirty, except for an ignored combination, which changes nothing |
| Keys.Terminal.constructor | src/main.rs:75-90 | `Terminal::new`: nothing has been sent, and the terminal starts dirty (`dirty: true`) so that the first frame is drawn |

## Left out

- `src/tty.rs`, `src/window*`, `src/render/metal*`, `src/render.rs`, `src/font*`, `src/render/glyph_cache.rs` and `src/log.rs`: pty creation, threads, FFI, GPU and font rendering are not part of this model.
- The commented-out `StreamingParser` (src/tty/control_code.rs:458-784) is dead code.
- `set_cursor_style`, `CursorStyle` and `cursor_render_state` (src/screen.rs:90-104, 312-315): the cursor style type and the colour complement (floating point) are not part of this model. `virtual_cursor` is modelled.
- `Color::complement`, `rgb_to_hsl`, `hsl_to_rgb` and the `f32` conversions (src/color.rs:19-115): floating point.
- `size_in_window` (src/grid.rs:44-56): floating point.
- Logging (`debug!`, `warn!`, `trace!`, `eprintln!`) is left out; `invalid_control_sequence` and `bell` only log, so they change no state.
- Screens.Screen.ProcessInput: `clear_scrollback` is `todo!()` in the source (src/screen.rs:363-365), which panics. Inputs that decode to it are excluded by a precondition.
- Screens.Screen.constructor: grid sizes 0 and 65535 are excluded (`1 <= rows, cols < 65535`). `max_row` and `max_col` underflow on an empty grid, and `row + 1` and `col + 1` could overflow at 65535. The same bound applies to `ResizeGrid`.
- Screens.Screen.ScrollUp and Screens.Screen.ScrollDown require that the copies they make fit in the grid. The source would panic otherwise (a `u16` overflow or an out-of-range `copy_within`).
- `set_application_cursor` and `set_bracketed_paste`: the `Terminal` trait declares them (src/tty/control_code.rs:46-49) and the decoder calls them (src/tty/control_code.rs:327-328), but `impl Terminal for Screen` (src/screen.rs:122-429) implements neither. It implements `toggle_behaviour` over a `Behaviour` type that src/tty/control_code.rs does not define, so the two files do not fit together as they stand. The model supplies the missing bridge: `Step` and `Screens.Screen.Apply` hand the two commands to `toggle_behaviour` as `Behaviour::BracketedPaste` and `Behaviour::ApplicationCursor`. The bracketed-paste flag is then set as `toggle_behaviour` sets it. The application cursor has no screen flag, so it takes the `warn!` arm and changes nothing. This bridge is the model's choice, not the source's.
- Atlas.TextureAtlas.Reserve: the `usize` to `u16` conversions of `width` and `height` unwrap in the source. That becomes the precondition that both fit in a `u16`.
- Atlas.FirstFitComplete: stated for `w >= 1`. A zero-width request is placed by the sound half, but its completeness is not stated.
- The loops of `reserve` are split into the methods `BandColumns`, `CarveRow` and `CarveBand`, and the inner loop of `keep_intersection` into `IntersectWithRange`. `Vec::retain` and `min_by_key` are the functions `Retain` and `ShortestFit`, not loops.
- `copy_within` and `fill` are whole-slice updates of the cell array, with memmove semantics, rather than element loops.
- Font-size changes (src/main.rs:184-192) use floating point. Only their dispatch (`DecreaseFontSize`, `IncreaseFontSize`) and the dirty flag are modelled.
- The clipboard and the bracketed-paste flag are parameters of `KeyPress` and `PasteFromClipboard`. `pty.send` appends to the byte sequence `sent`.
- Arrow keys ignore the application-cursor mode, as the source does.
- `MAX_INLINE_LEN` is 22, the value for a 64-bit target.
- The window, pty, renderer and font set-up in `Terminal::new`, and `resize`, `render`, `poll_input` and `main` (src/main.rs), are wiring and a wall-clock loop, not part of this model. Of `Terminal::new` only the starting `sent` and `dirty` are modelled; `render` clearing `dirty` is not.

