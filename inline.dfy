/**
 * `InlineBytes` and the `InlineStr` wrapper of `src/inline.rs`: a byte string
 * kept inside the value itself when it is short, and on the heap otherwise.
 * The inline buffer is a fixed array of `MAX_INLINE_LEN` bytes with a `u8`
 * length; the boxed form owns exactly the bytes.
 */
module Inline {

  import opened Primitives
  import Utf8

  /**
   * `size_of::<Box<[u8]>>() + align_of::<Box<[u8]>>() - 2` on a 64-bit
   * target: a boxed slice is an address and a length, 16 bytes aligned to 8.
   */
  const MAX_INLINE_LEN: nat := 16 + 8 - 2

  datatype InlineBytes =
    | Inline(len: u8, bytes: seq<byte>)
    | Boxed(boxed: seq<byte>)

  /** The shape every constructed value has: the inline array has its fixed size and `len` fits in it. */
  predicate Valid(b: InlineBytes) {
    b.Inline? ==> |b.bytes| == MAX_INLINE_LEN && b.len as int <= MAX_INLINE_LEN
  }

  /** `Deref`: the first `len` bytes of the array, or the boxed slice. */
  function Deref(b: InlineBytes): (s: seq<byte>)
    requires Valid(b)
    ensures b.Inline? ==> |s| == b.len as int <= MAX_INLINE_LEN
    ensures b.Boxed? ==> s == b.boxed
  {
    match b
    case Inline(len, bytes) => bytes[..len]
    case Boxed(boxed) => boxed
  }

  /**
   * `InlineBytes::new`: inline exactly when the slice fits, the unused tail of
   * the array left zero; dereferencing the result gives the slice back.
   */
  function New(slice: seq<byte>): (b: InlineBytes)
    ensures Valid(b)
    ensures b.Inline? <==> |slice| <= MAX_INLINE_LEN
    ensures b.Inline? ==> forall i | |slice| <= i < MAX_INLINE_LEN :: b.bytes[i] == 0
    ensures Deref(b) == slice
  {
    if |slice| <= MAX_INLINE_LEN then
      var bytes := slice + seq(MAX_INLINE_LEN - |slice|, _ => 0);
      assert bytes[..|slice|] == slice;
      Inline(|slice|, bytes)
    else
      Boxed(slice)
  }

  /** `From<u8>`: a one-byte string, always inline. */
  function FromByte(byte: byte): (b: InlineBytes)
    ensures Valid(b) && b.Inline? && Deref(b) == [byte]
  {
    New([byte])
  }

  /** `InlineStr`: the UTF-8 bytes of a text, held in an `InlineBytes`. */
  datatype InlineStr = InlineStr(utf8: InlineBytes)

  /** A value built from a text: its bytes are well-formed UTF-8. */
  predicate StrValid(s: InlineStr) {
    Valid(s.utf8) && Utf8.IsValid(Deref(s.utf8))
  }

  /** `InlineStr::new` (and `From<&str>`): stores the text's UTF-8 encoding. */
  function NewStr(text: seq<char>): (s: InlineStr)
    ensures StrValid(s)
    ensures s.utf8.Inline? <==> |Utf8.EncodeString(text)| <= MAX_INLINE_LEN
    ensures Deref(s.utf8) == Utf8.EncodeString(text)
  {
    Utf8.EncodeStringValid(text);
    InlineStr(New(Utf8.EncodeString(text)))
  }

  /** `Deref` for `InlineStr`: the text whose encoding the bytes are. */
  function DerefStr(s: InlineStr): (text: seq<char>)
    requires StrValid(s)
    ensures Utf8.EncodeString(text) == Deref(s.utf8)
  {
    Utf8.DecodeStringEncode(Deref(s.utf8));
    Utf8.DecodeString(Deref(s.utf8))
  }

  /** `From<char>`: the character's one-to-four-byte encoding, always inline. */
  function FromChar(ch: char): (s: InlineStr)
    ensures StrValid(s) && s.utf8.Inline?
    ensures Deref(s.utf8) == Utf8.Encode(ch)
  {
    assert Utf8.EncodeString([ch]) == Utf8.Encode(ch) + Utf8.EncodeString([]);
    NewStr([ch])
  }

  /** Dereferencing `new(text)` yields the text, whichever variant holds it. */
  lemma {:induction false} NewStrRoundTrip(text: seq<char>)
    ensures DerefStr(NewStr(text)) == text
  {
    Utf8.EncodeStringValid(text);
  }

  /** `InlineStr::from(ch)` dereferences to the one-character text. */
  lemma {:induction false} FromCharRoundTrip(ch: char)
    ensures DerefStr(FromChar(ch)) == [ch]
  {
    NewStrRoundTrip([ch]);
  }
}
