/**
  UTF-8 byte widths of code points. Rust's `str` is indexed by byte offsets;
  the model indexes the text by code point, and the functions here map a
  code-point index to the byte offset Rust would use for the same position.
 */
module Utf8 {

  /** The number of bytes UTF-8 spends on `c` (Rust's `char::len_utf8`). */
  function Utf8Len(c: char): (n: nat)
    ensures 1 <= n <= 4
    ensures n == 1 <==> c as int < 0x80
  {
    if c as int < 0x80 then 1
    else if c as int < 0x800 then 2
    else if c as int < 0x1_0000 then 3
    else 4
  }

  /** The byte length of the UTF-8 encoding of `s` (Rust's `str::len`). */
  function ByteLen(s: seq<char>): (n: nat)
    ensures |s| <= n <= 4 * |s|
    ensures n == 0 <==> s == []
  {
    if s == [] then 0 else Utf8Len(s[0]) + ByteLen(s[1..])
  }

  /** The byte offset of code-point index `i` in `s`. */
  function ByteOffset(s: seq<char>, i: nat): nat
    requires i <= |s|
  {
    ByteLen(s[..i])
  }

  /** Byte lengths add up over concatenation. */
  lemma {:induction false} ByteLenAppend(a: seq<char>, b: seq<char>)
    ensures ByteLen(a + b) == ByteLen(a) + ByteLen(b)
  {
    if a == [] {
      assert a + b == b;
    } else {
      assert (a + b)[0] == a[0];
      assert (a + b)[1..] == a[1..] + b;
      ByteLenAppend(a[1..], b);
    }
  }

  /** The bytes between two code-point boundaries are those of the code points between them. */
  lemma ByteOffsetSlice(s: seq<char>, i: nat, j: nat)
    requires i <= j <= |s|
    ensures ByteOffset(s, j) == ByteOffset(s, i) + ByteLen(s[i..j])
  {
    assert s[..j] == s[..i] + s[i..j];
    ByteLenAppend(s[..i], s[i..j]);
  }

  /**
    Distinct code-point indices are distinct byte offsets, in the same order:
    the code-point boundaries of `s` and the byte offsets that Rust accepts as
    char boundaries correspond one to one.
   */
  lemma ByteOffsetStrictlyIncreasing(s: seq<char>, i: nat, j: nat)
    requires i < j <= |s|
    ensures ByteOffset(s, i) < ByteOffset(s, j)
  {
    ByteOffsetSlice(s, i, j);
  }

  /** Byte offsets of ordered code-point boundaries are ordered and within the text. */
  lemma ByteOffsetsInText(s: seq<char>, i: nat, j: nat)
    requires i <= j <= |s|
    ensures ByteOffset(s, i) <= ByteOffset(s, j) <= ByteLen(s)
  {
    ByteOffsetSlice(s, i, j);
    ByteOffsetSlice(s, j, |s|);
    ByteOffsetEnd(s);
  }

  /** The offset of the end of the text is its byte length. */
  lemma ByteOffsetEnd(s: seq<char>)
    ensures ByteOffset(s, |s|) == ByteLen(s)
  {
    assert s[..|s|] == s;
  }
}
