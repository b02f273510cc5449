/**
 * Bytes, C strings and the fixed ASCII character classes the tokenizer uses.
 *
 * The C code works on `char` buffers ended by a NUL byte. Here a buffer is a
 * `seq<byte>`, and reading at or past its end (or before its start) yields the
 * NUL byte, which is what the terminator gives the C code at its last position.
 */
module Bytes {
  newtype byte = x: int | 0 <= x < 256

  type Bytes = seq<byte>

  datatype Option<T> = None | Some(value: T)

  /** The byte at index `i`, or NUL outside the buffer. */
  function At(s: Bytes, i: int): (c: byte)
    ensures 0 <= i < |s| ==> c == s[i]
    ensures !(0 <= i < |s|) ==> c == 0
  {
    if 0 <= i < |s| then s[i] else 0
  }

  predicate NoNul(s: Bytes) {
    forall i :: 0 <= i < |s| ==> s[i] != 0
  }

  /** What `strlen` sees: the bytes before the first NUL. */
  function CString(s: Bytes): (r: Bytes)
    ensures NoNul(r)
    ensures |r| <= |s| && r == s[..|r|]
    ensures |r| < |s| ==> s[|r|] == 0
  {
    if s == [] || s[0] == 0 then [] else [s[0]] + CString(s[1..])
  }

  lemma {:induction false} CStringOfNoNul(s: Bytes)
    requires NoNul(s)
    ensures CString(s) == s
  {
    if s != [] {
      assert NoNul(s[1..]) by {
        forall i | 0 <= i < |s[1..]| ensures s[1..][i] != 0 { assert s[1..][i] == s[i + 1]; }
      }
      CStringOfNoNul(s[1..]);
    }
  }

  /** Bytes of a string whose characters are all below 256. */
  function Str(s: string): (r: Bytes)
    requires forall i :: 0 <= i < |s| ==> s[i] as int < 256
    ensures |r| == |s|
    ensures forall i :: 0 <= i < |s| ==> r[i] as int == s[i] as int
  {
    if s == [] then [] else [s[0] as int as byte] + Str(s[1..])
  }

  // The C-locale classification functions of <ctype.h>. Every byte of 128
  // or more is outside each class.

  predicate IsUpper(c: byte) { 'A' as byte <= c <= 'Z' as byte }
  predicate IsLower(c: byte) { 'a' as byte <= c <= 'z' as byte }
  predicate IsAlpha(c: byte) { IsUpper(c) || IsLower(c) }
  predicate IsDigit(c: byte) { '0' as byte <= c <= '9' as byte }
  predicate IsAlnum(c: byte) { IsAlpha(c) || IsDigit(c) }
  predicate IsXDigit(c: byte) {
    IsDigit(c) || 'a' as byte <= c <= 'f' as byte || 'A' as byte <= c <= 'F' as byte
  }
  /** Space, tab, newline, vertical tab, form feed, carriage return. */
  predicate IsSpace(c: byte) { c == 32 || 9 <= c <= 13 }
  predicate IsCntrl(c: byte) { c < 32 || c == 127 }
  predicate IsGraph(c: byte) { 33 <= c <= 126 }
  predicate IsPunct(c: byte) { IsGraph(c) && !IsAlnum(c) }

  function ToLower(c: byte): (r: byte)
    ensures IsUpper(c) ==> r as int == c as int + 32 && IsLower(r)
    ensures !IsUpper(c) ==> r == c
  {
    if IsUpper(c) then c + 32 else c
  }

  /** A UTF-8 continuation byte, `10xxxxxx` (section 3 of RFC 3629). */
  predicate IsContinuation(c: byte) { 0x80 <= c < 0xC0 }

  function Sum(s: seq<int>): int {
    if s == [] then 0 else Sum(s[..|s| - 1]) + s[|s| - 1]
  }

  lemma SumAppend(s: seq<int>, x: int)
    ensures Sum(s + [x]) == Sum(s) + x
  {
    assert (s + [x])[..|s|] == s;
  }
}
