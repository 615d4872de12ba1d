/**
 * UTF-8 as the Rust standard library sees it: `char::encode_utf8` and the
 * validation performed by `core::str::from_utf8` (whose `Utf8Error` carries
 * `valid_up_to` and `error_len`). Both follow section 3 and section 4 of
 * RFC 3629: shortest form only, no surrogates, nothing above U+10FFFF.
 */
module Utf8 {

  import opened Primitives

  predicate IsContinuation(b: byte) {
    0x80 <= b < 0xC0
  }

  /** What the validator finds at the start of a non-empty byte string. */
  datatype Step =
    | Char(len: nat)      // a complete, valid character of `len` bytes
    | Truncated           // a valid prefix of a character, cut off by the end of input (`error_len() == None`)
    | Bad(len: nat)       // an invalid sequence of `len` bytes (`error_len() == Some(len)`)

  /** Second byte allowed after a three-byte lead (rules out overlongs and surrogates). */
  predicate SecondOfThree(lead: byte, b: byte) {
    || (lead == 0xE0 && 0xA0 <= b <= 0xBF)
    || (0xE1 <= lead <= 0xEC && 0x80 <= b <= 0xBF)
    || (lead == 0xED && 0x80 <= b <= 0x9F)
    || (0xEE <= lead <= 0xEF && 0x80 <= b <= 0xBF)
  }

  /** Second byte allowed after a four-byte lead (rules out overlongs and values above U+10FFFF). */
  predicate SecondOfFour(lead: byte, b: byte) {
    || (lead == 0xF0 && 0x90 <= b <= 0xBF)
    || (0xF1 <= lead <= 0xF3 && 0x80 <= b <= 0xBF)
    || (lead == 0xF4 && 0x80 <= b <= 0x8F)
  }

  /** The validator's verdict on the character starting at `s[0]`. */
  function StepAt(s: seq<byte>): (st: Step)
    requires |s| > 0
    ensures st.Char? ==> 1 <= st.len <= 4 && st.len <= |s|
    ensures st.Bad? ==> 1 <= st.len <= 3 && st.len <= |s|
    ensures st.Truncated? ==> 1 <= |s| <= 3
    ensures st == Char(1) <==> s[0] < 0x80
  {
    var lead := s[0];
    if lead < 0x80 then Char(1)
    else if 0xC2 <= lead <= 0xDF then
      if |s| < 2 then Truncated
      else if !IsContinuation(s[1]) then Bad(1)
      else Char(2)
    else if 0xE0 <= lead <= 0xEF then
      if |s| < 2 then Truncated
      else if !SecondOfThree(lead, s[1]) then Bad(1)
      else if |s| < 3 then Truncated
      else if !IsContinuation(s[2]) then Bad(2)
      else Char(3)
    else if 0xF0 <= lead <= 0xF4 then
      if |s| < 2 then Truncated
      else if !SecondOfFour(lead, s[1]) then Bad(1)
      else if |s| < 3 then Truncated
      else if !IsContinuation(s[2]) then Bad(2)
      else if |s| < 4 then Truncated
      else if !IsContinuation(s[3]) then Bad(3)
      else Char(4)
    else Bad(1)
  }

  /** The step only looks at the bytes it reports on. */
  lemma {:induction false} StepAtPrefix(s: seq<byte>, t: seq<byte>)
    requires |s| > 0
    requires !StepAt(s).Truncated?
    ensures StepAt(s + t) == StepAt(s)
  {
    assert (s + t)[0] == s[0];
    if |s| >= 2 { assert (s + t)[1] == s[1]; }
    if |s| >= 3 { assert (s + t)[2] == s[2]; }
    if |s| >= 4 { assert (s + t)[3] == s[3]; }
  }

  /** `Utf8Error::valid_up_to`: the length of the longest prefix made of complete valid characters. */
  function ValidUpTo(s: seq<byte>): (n: nat)
    ensures n <= |s|
    decreases |s|
  {
    if s == [] then 0
    else match StepAt(s)
      case Char(k) => k + ValidUpTo(s[k..])
      case _ => 0
  }

  predicate IsValid(s: seq<byte>) {
    ValidUpTo(s) == |s|
  }

  /** The scalar value a valid character encodes. */
  function DecodeChar(s: seq<byte>): (c: char)
    requires |s| > 0 && StepAt(s).Char?
  {
    var b0: int := s[0];
    if b0 < 0x80 then b0 as char
    else if b0 < 0xE0 then
      var b1: int := s[1];
      ((b0 - 0xC0) * 64 + (b1 - 0x80)) as char
    else if b0 < 0xF0 then
      var b1: int, b2: int := s[1], s[2];
      assert b0 == 0xED ==> b1 <= 0x9F;
      ((b0 - 0xE0) * 4096 + (b1 - 0x80) * 64 + (b2 - 0x80)) as char
    else
      var b1: int, b2: int, b3: int := s[1], s[2], s[3];
      ((b0 - 0xF0) * 262144 + (b1 - 0x80) * 4096 + (b2 - 0x80) * 64 + (b3 - 0x80)) as char
  }

  /** `char::encode_utf8`: the shortest-form encoding of a scalar value. */
  function Encode(c: char): (r: seq<byte>)
    ensures 1 <= |r| <= 4
    ensures |r| == 1 <==> (c as int) < 0x80
  {
    var v := c as int;
    if v < 0x80 then [v]
    else if v < 0x800 then [0xC0 + v / 64, 0x80 + v % 64]
    else if v < 0x10000 then [0xE0 + v / 4096, 0x80 + (v / 64) % 64, 0x80 + v % 64]
    else [0xF0 + v / 262144, 0x80 + (v / 4096) % 64, 0x80 + (v / 64) % 64, 0x80 + v % 64]
  }

  /** Arithmetic behind the two-byte form. */
  lemma {:induction false} TwoByteForm(v: int)
    requires 0x80 <= v < 0x800
    ensures 0xC2 <= 0xC0 + v / 64 <= 0xDF && (v / 64) * 64 + v % 64 == v
  {
  }

  /** Arithmetic behind the three-byte form. */
  lemma {:induction false} ThreeByteForm(v: int)
    requires 0x800 <= v < 0x10000
    ensures 0xE0 <= 0xE0 + v / 4096 <= 0xEF
    ensures (v / 4096) * 4096 + ((v / 64) % 64) * 64 + v % 64 == v
  {
    var q, r := v / 64, v % 64;
    var q2, r2 := q / 64, q % 64;
    assert v == q * 64 + r && q == q2 * 64 + r2;
    assert v == q2 * 4096 + (r2 * 64 + r);
    assert v / 4096 == q2;
  }

  /** Arithmetic behind the four-byte form. */
  lemma {:induction false} FourByteForm(v: int)
    requires 0x10000 <= v < 0x110000
    ensures 0xF0 <= 0xF0 + v / 262144 <= 0xF4
    ensures (v / 262144) * 262144 + ((v / 4096) % 64) * 4096 + ((v / 64) % 64) * 64 + v % 64 == v
  {
    var q, r := v / 64, v % 64;
    var q2, r2 := q / 64, q % 64;
    var q3, r3 := q2 / 64, q2 % 64;
    assert v == q * 64 + r && q == q2 * 64 + r2 && q2 == q3 * 64 + r3;
    assert v == q2 * 4096 + (r2 * 64 + r);
    assert v / 4096 == q2;
    assert v == q3 * 262144 + (r3 * 4096 + r2 * 64 + r);
    assert v / 262144 == q3;
  }

  /** Encoding then validating finds exactly one complete character, and decodes it back. */
  lemma {:induction false} EncodeThenStep(c: char, rest: seq<byte>)
    ensures StepAt(Encode(c) + rest) == Char(|Encode(c)|)
    ensures DecodeChar(Encode(c) + rest) == c
  {
    var e := Encode(c);
    var s := e + rest;
    var v := c as int;
    assert s[0] == e[0];
    if v < 0x80 {
    } else if v < 0x800 {
      TwoByteForm(v);
      assert s[1] == e[1];
    } else if v < 0x10000 {
      ThreeByteForm(v);
      assert s[1] == e[1] && s[2] == e[2];
    } else {
      FourByteForm(v);
      assert s[1] == e[1] && s[2] == e[2] && s[3] == e[3];
    }
  }

  lemma {:induction false} SplitDigit64(q: int, r: int)
    requires 0 <= q && 0 <= r < 64
    ensures (q * 64 + r) / 64 == q && (q * 64 + r) % 64 == r
  {
  }

  lemma {:induction false} SplitDigit4096(q: int, r: int)
    requires 0 <= q && 0 <= r < 4096
    ensures (q * 4096 + r) / 4096 == q
  {
  }

  lemma {:induction false} SplitDigit262144(q: int, r: int)
    requires 0 <= q && 0 <= r < 262144
    ensures (q * 262144 + r) / 262144 == q
  {
  }

  lemma {:induction false} EncodeTwo(b0: int, b1: int)
    requires 0xC2 <= b0 <= 0xDF && 0x80 <= b1 <= 0xBF
    ensures Encode(((b0 - 0xC0) * 64 + (b1 - 0x80)) as char) == [b0, b1]
  {
    SplitDigit64(b0 - 0xC0, b1 - 0x80);
  }

  lemma {:induction false} EncodeThree(b0: int, b1: int, b2: int)
    requires 0xE0 <= b0 <= 0xEF && 0x80 <= b1 <= 0xBF && 0x80 <= b2 <= 0xBF
    requires b0 == 0xE0 ==> b1 >= 0xA0
    requires b0 == 0xED ==> b1 <= 0x9F
    ensures Encode(((b0 - 0xE0) * 4096 + (b1 - 0x80) * 64 + (b2 - 0x80)) as char) == [b0, b1, b2]
  {
    var high := (b0 - 0xE0) * 64 + (b1 - 0x80);
    var v := (b0 - 0xE0) * 4096 + (b1 - 0x80) * 64 + (b2 - 0x80);
    assert v == high * 64 + (b2 - 0x80);
    SplitDigit64(high, b2 - 0x80);
    SplitDigit64(b0 - 0xE0, b1 - 0x80);
    SplitDigit4096(b0 - 0xE0, (b1 - 0x80) * 64 + (b2 - 0x80));
  }

  lemma {:induction false} EncodeFour(b0: int, b1: int, b2: int, b3: int)
    requires 0xF0 <= b0 <= 0xF4 && 0x80 <= b1 <= 0xBF && 0x80 <= b2 <= 0xBF && 0x80 <= b3 <= 0xBF
    requires b0 == 0xF0 ==> b1 >= 0x90
    requires b0 == 0xF4 ==> b1 <= 0x8F
    ensures Encode(((b0 - 0xF0) * 262144 + (b1 - 0x80) * 4096 + (b2 - 0x80) * 64 + (b3 - 0x80)) as char) == [b0, b1, b2, b3]
  {
    var top := (b0 - 0xF0) * 64 + (b1 - 0x80);
    var high := top * 64 + (b2 - 0x80);
    var v := (b0 - 0xF0) * 262144 + (b1 - 0x80) * 4096 + (b2 - 0x80) * 64 + (b3 - 0x80);
    assert v == high * 64 + (b3 - 0x80);
    assert v == top * 4096 + ((b2 - 0x80) * 64 + (b3 - 0x80));
    SplitDigit64(high, b3 - 0x80);
    SplitDigit4096(top, (b2 - 0x80) * 64 + (b3 - 0x80));
    SplitDigit64(top, b2 - 0x80);
    SplitDigit64(b0 - 0xF0, b1 - 0x80);
    SplitDigit262144(b0 - 0xF0, (b1 - 0x80) * 4096 + (b2 - 0x80) * 64 + (b3 - 0x80));
  }

  /** Every character the validator accepts is the encoding of the character it decodes to. */
  lemma {:induction false} StepThenEncode(s: seq<byte>)
    requires |s| > 0 && StepAt(s).Char?
    ensures Encode(DecodeChar(s)) == s[..StepAt(s).len]
  {
    var b0: int := s[0];
    if b0 < 0x80 {
    } else if b0 < 0xE0 {
      EncodeTwo(b0, s[1]);
      assert s[..2] == [s[0], s[1]];
    } else if b0 < 0xF0 {
      EncodeThree(b0, s[1], s[2]);
      assert s[..3] == [s[0], s[1], s[2]];
    } else {
      EncodeFour(b0, s[1], s[2], s[3]);
      assert s[..4] == [s[0], s[1], s[2], s[3]];
    }
  }

  /** The encoding of a string: its characters' encodings, concatenated. */
  function EncodeString(cs: seq<char>): (r: seq<byte>)
    ensures |r| >= |cs|
  {
    if cs == [] then [] else Encode(cs[0]) + EncodeString(cs[1..])
  }

  /** The characters of a valid byte string, in order. */
  function DecodeString(s: seq<byte>): (cs: seq<char>)
    requires IsValid(s)
    decreases |s|
  {
    if s == [] then []
    else
      var k := StepAt(s).len;
      [DecodeChar(s)] + DecodeString(s[k..])
  }

  lemma {:induction false} EncodeStringAppend(a: seq<char>, b: seq<char>)
    ensures EncodeString(a + b) == EncodeString(a) + EncodeString(b)
  {
    if a == [] {
      assert a + b == b;
    } else {
      assert (a + b)[0] == a[0];
      assert (a + b)[1..] == a[1..] + b;
      EncodeStringAppend(a[1..], b);
      assert EncodeString(a + b) == Encode(a[0]) + (EncodeString(a[1..]) + EncodeString(b));
    }
  }

  /** Every encoded string is valid and decodes back to itself. */
  lemma {:induction false} EncodeStringValid(cs: seq<char>)
    ensures IsValid(EncodeString(cs))
    ensures DecodeString(EncodeString(cs)) == cs
  {
    if cs != [] {
      var e := Encode(cs[0]);
      var rest := EncodeString(cs[1..]);
      var s := e + rest;
      EncodeThenStep(cs[0], rest);
      assert s[|e|..] == rest;
      EncodeStringValid(cs[1..]);
    }
  }

  lemma {:induction false} EncodeCons(s: seq<byte>)
    requires IsValid(s) && s != []
    requires IsValid(s[StepAt(s).len..])
    requires EncodeString(DecodeString(s[StepAt(s).len..])) == s[StepAt(s).len..]
    ensures EncodeString(DecodeString(s)) == s
  {
    StepThenEncode(s);
    EncodeStringCons(DecodeChar(s), DecodeString(s[StepAt(s).len..]));
    SplitAt(s, StepAt(s).len);
  }

  lemma {:induction false} SplitAt(s: seq<byte>, k: nat)
    requires k <= |s|
    ensures s[..k] + s[k..] == s
  {
  }

  lemma {:induction false} EncodeStringCons(c: char, tail: seq<char>)
    ensures EncodeString([c] + tail) == Encode(c) + EncodeString(tail)
  {
    var cs := [c] + tail;
    assert cs[0] == c && cs[1..] == tail;
  }

  /** Every valid byte string is the encoding of the string it decodes to. */
  lemma {:induction false} DecodeStringEncode(s: seq<byte>)
    requires IsValid(s)
    ensures EncodeString(DecodeString(s)) == s
    decreases |s|
  {
    if s != [] {
      var k := StepAt(s).len;
      assert ValidUpTo(s) == k + ValidUpTo(s[k..]);
      DecodeStringEncode(s[k..]);
      EncodeCons(s);
    }
  }

  /** A valid string followed by more bytes: validation walks over it unchanged. */
  lemma {:induction false} ValidUpToAppend(s: seq<byte>, t: seq<byte>)
    requires IsValid(s)
    ensures ValidUpTo(s + t) == |s| + ValidUpTo(t)
    decreases |s|
  {
    if s == [] {
      assert s + t == t;
    } else {
      var k := StepAt(s).len;
      StepAtPrefix(s[..k], s[k..] + t);
      StepAtPrefix(s[..k], s[k..]);
      assert s[..k] + s[k..] == s;
      assert s[..k] + (s[k..] + t) == s + t;
      assert (s + t)[k..] == s[k..] + t;
      ValidUpToAppend(s[k..], t);
    }
  }

  /** The prefix a validator accepts is valid on its own. */
  lemma {:induction false} ValidPrefixIsValid(s: seq<byte>)
    ensures IsValid(s[..ValidUpTo(s)])
    decreases |s|
  {
    var v := ValidUpTo(s);
    if s != [] && StepAt(s).Char? {
      var k := StepAt(s).len;
      ValidPrefixIsValid(s[k..]);
      var w := ValidUpTo(s[k..]);
      var p := s[..v];
      assert p[..k] == s[..k];
      assert p[k..] == s[k..][..w];
      StepAtPrefix(s[..k], s[k..v]);
      assert s[..k] + s[k..v] == p;
    } else {
      assert s[..v] == [];
    }
  }

  /** Every byte of an encoded string comes from some character's encoding; ASCII bytes only from ASCII characters. */
  lemma {:induction false} AsciiByteOfEncoding(cs: seq<char>, i: nat)
    requires i < |EncodeString(cs)| && EncodeString(cs)[i] < 0x80
    ensures exists j :: 0 <= j < |cs| && cs[j] as int == EncodeString(cs)[i]
  {
    var e := Encode(cs[0]);
    if i < |e| {
      var v := cs[0] as int;
      assert e[i] < 0x80;
      assert v < 0x80;
      assert cs[0] as int == EncodeString(cs)[i];
    } else {
      assert EncodeString(cs)[i] == EncodeString(cs[1..])[i - |e|];
      AsciiByteOfEncoding(cs[1..], i - |e|);
      var j :| 0 <= j < |cs[1..]| && cs[1..][j] as int == EncodeString(cs[1..])[i - |e|];
      assert cs[j + 1] as int == EncodeString(cs)[i];
    }
  }

  /** Every ASCII character of a string appears as its own byte in the encoding. */
  lemma {:induction false} AsciiCharInEncoding(cs: seq<char>, j: nat)
    requires j < |cs| && (cs[j] as int) < 0x80
    ensures exists i :: 0 <= i < |EncodeString(cs)| && EncodeString(cs)[i] == cs[j] as int
  {
    var e := Encode(cs[0]);
    if j == 0 {
      assert EncodeString(cs)[0] == e[0] == cs[0] as int;
    } else {
      AsciiCharInEncoding(cs[1..], j - 1);
      var i :| 0 <= i < |EncodeString(cs[1..])| && EncodeString(cs[1..])[i] == cs[1..][j - 1] as int;
      assert EncodeString(cs)[|e| + i] == EncodeString(cs[1..])[i];
    }
  }
}
