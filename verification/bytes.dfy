/** Byte sequences, the UTF-8 encoding Python's `str.encode()` applies to
    the text the device sends, and the two generic helpers every other
    module needs (`Option` and `SplitThree`); they sit here because this
    is the one module all the others import. */
module Bytes {

  /** One octet on the wire. */
  type Byte = b: int | 0 <= b < 256

  /** A value that may be absent. */
  datatype Option<+T> = None | Some(value: T)

  /** The line feed byte, `b"\n"`. */
  const LineFeed: Byte := 0x0A

  /** The UTF-8 encoding of one Unicode scalar value. */
  function Utf8Char(c: char): (r: seq<Byte>)
    ensures 1 <= |r| <= 4
    ensures (c as int < 0x80) <==> |r| == 1
    ensures |r| == 1 ==> r[0] == c as int
    ensures |r| > 1 ==> forall i :: 0 <= i < |r| ==> r[i] >= 0x80
  {
    var n := c as int;
    if n < 0x80 then [n]
    else if n < 0x800 then [0xC0 + n / 0x40, 0x80 + n % 0x40]
    else if n < 0x1_0000 then
      [0xE0 + n / 0x1000, 0x80 + (n / 0x40) % 0x40, 0x80 + n % 0x40]
    else
      [0xF0 + n / 0x4_0000, 0x80 + (n / 0x1000) % 0x40,
       0x80 + (n / 0x40) % 0x40, 0x80 + n % 0x40]
  }

  /** The UTF-8 encoding of a string, character by character. */
  function Utf8(s: string): (r: seq<Byte>)
    ensures |s| <= |r| <= 4 * |s|
  {
    if s == [] then [] else Utf8Char(s[0]) + Utf8(s[1..])
  }

  /** Encoding distributes over concatenation. */
  lemma {:induction false} Utf8Append(a: string, b: string)
    ensures Utf8(a + b) == Utf8(a) + Utf8(b)
  {
    if a == [] {
      assert a + b == b;
    } else {
      assert (a + b)[1..] == a[1..] + b;
      Utf8Append(a[1..], b);
    }
  }

  predicate IsAscii(s: string)
  {
    forall i :: 0 <= i < |s| ==> s[i] as int < 0x80
  }

  /** An ASCII string encodes to one byte per character, each its code. */
  lemma {:induction false} AsciiUtf8(s: string)
    requires IsAscii(s)
    ensures |Utf8(s)| == |s|
    ensures forall i :: 0 <= i < |s| ==> Utf8(s)[i] == s[i] as int
  {
    if s != [] {
      AsciiUtf8(s[1..]);
    }
  }

  /** A string of ASCII characters encodes to the bytes of its codes. */
  lemma AsciiSpelling(s: string, b: seq<Byte>)
    requires |s| == |b|
    requires forall i :: 0 <= i < |s| ==> s[i] as int == b[i] < 0x80
    ensures Utf8(s) == b
  {
    AsciiUtf8(s);
  }

  /** Cutting a sequence at two points and gluing the pieces back
      together gives the sequence. */
  lemma SplitThree<T>(s: seq<T>, i: nat, j: nat)
    requires i <= j <= |s|
    ensures s == s[..i] + s[i..j] + s[j..]
  {
  }
}
