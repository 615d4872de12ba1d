/**
 * `InlineStr` of `src/inline_str.rs`: a text kept inside the value when its
 * UTF-8 encoding is short, and boxed otherwise. Equality is the derived,
 * structural one, so it compares the whole inline array, padding included.
 */
module InlineText {

  import opened Primitives
  import Utf8

  /** `size_of::<Box<str>>() + align_of::<Box<str>>() - 2` on a 64-bit target. */
  const MAX_INLINE_LEN: nat := 16 + 8 - 2

  datatype InlineStr =
    | Inline(length: u8, bytes: seq<byte>)
    | Boxed(text: seq<char>)

  /** The array has its fixed size and holds UTF-8 in its first `length` bytes. */
  predicate Valid(s: InlineStr) {
    s.Inline? ==>
      && |s.bytes| == MAX_INLINE_LEN
      && s.length as int <= MAX_INLINE_LEN
      && Utf8.IsValid(s.bytes[..s.length])
  }

  /** `Deref`: the text of the first `length` bytes, or the boxed text. */
  function Deref(s: InlineStr): (text: seq<char>)
    requires Valid(s)
    ensures s.Inline? ==> Utf8.EncodeString(text) == s.bytes[..s.length]
    ensures s.Boxed? ==> text == s.text
  {
    match s
    case Inline(length, bytes) =>
      Utf8.DecodeStringEncode(bytes[..length]);
      Utf8.DecodeString(bytes[..length])
    case Boxed(text) => text
  }

  /**
   * What `new` produces and nothing else does: inline exactly when the text's
   * encoding fits, then with the encoding in front and zeros behind it.
   */
  predicate Canonical(s: InlineStr) {
    && Valid(s)
    && (s.Inline? <==> |Utf8.EncodeString(Deref(s))| <= MAX_INLINE_LEN)
    && (s.Inline? ==> forall i | s.length as int <= i < MAX_INLINE_LEN :: s.bytes[i] == 0)
  }

  /** `InlineStr::new` (and `From<&str>`): the byte length of the text decides the variant. */
  function New(text: seq<char>): (s: InlineStr)
    ensures Canonical(s)
    ensures s.Inline? <==> |Utf8.EncodeString(text)| <= MAX_INLINE_LEN
    ensures s.Inline? ==> s.length as int == |Utf8.EncodeString(text)|
    ensures Deref(s) == text
  {
    var encoded := Utf8.EncodeString(text);
    Utf8.EncodeStringValid(text);
    if |encoded| <= MAX_INLINE_LEN then
      var bytes := encoded + seq(MAX_INLINE_LEN - |encoded|, _ => 0);
      assert bytes[..|encoded|] == encoded;
      Inline(|encoded|, bytes)
    else
      Boxed(text)
  }

  /** `From<char>`: the character's UTF-8 encoding, always inline. */
  function FromChar(ch: char): (s: InlineStr)
    ensures Canonical(s) && s.Inline?
    ensures s.bytes[..s.length] == Utf8.Encode(ch)
    ensures Deref(s) == [ch]
  {
    assert Utf8.EncodeString([ch]) == Utf8.Encode(ch) + Utf8.EncodeString([]);
    New([ch])
  }

  /** A canonical value is the one `new` builds from its own text. */
  lemma {:induction false} CanonicalIsNew(s: InlineStr)
    requires Canonical(s)
    ensures s == New(Deref(s))
  {
    var text := Deref(s);
    var t := New(text);
    if s.Inline? {
      var encoded := Utf8.EncodeString(text);
      assert |encoded| == s.length as int;
      assert s.bytes == t.bytes by {
        forall i | 0 <= i < MAX_INLINE_LEN ensures s.bytes[i] == t.bytes[i] {
          if i < s.length as int {
            assert s.bytes[i] == s.bytes[..s.length][i] == encoded[i];
            assert t.bytes[i] == t.bytes[..t.length][i] == encoded[i];
          }
        }
      }
    }
  }

  /**
   * The derived `PartialEq` agrees with comparing the texts: because unused
   * inline bytes stay zero, two values built from equal text are equal, and
   * equal values hold equal text.
   */
  lemma {:induction false} EqualityIsTextual(a: InlineStr, b: InlineStr)
    requires Canonical(a) && Canonical(b)
    ensures a == b <==> Deref(a) == Deref(b)
  {
    CanonicalIsNew(a);
    CanonicalIsNew(b);
  }

  /** `new` is one-to-one: different texts give different values. */
  lemma {:induction false} NewInjective(t: seq<char>, u: seq<char>)
    ensures New(t) == New(u) <==> t == u
  {
    assert Deref(New(t)) == t && Deref(New(u)) == u;
  }
}
