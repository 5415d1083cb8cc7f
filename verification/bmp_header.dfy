/** The two pieces of a BITMAPFILEHEADER the viewer reads: the `BM` magic
    and the little-endian 32-bit `bfSize` field two bytes after it. */
module BmpHeader {
  import opened Bytes

  const MagicB: Byte := 0x42  // 'B'
  const MagicM: Byte := 0x4D  // 'M'

  /** `b'BM'` as bytes. */
  const Magic: seq<Byte> := [MagicB, MagicM]

  /** The header prefix the viewer needs before it can read the size:
      the magic plus the four size bytes. */
  const HeaderPrefixLength: nat := 6

  /** 2^32: one past the largest value of an unsigned 32-bit field. */
  const U32Limit: nat := 0x1_0000_0000

  /** The magic occurs at index `i` of `buf`. */
  predicate MagicAt(buf: seq<Byte>, i: int)
  {
    0 <= i && i + 1 < |buf| && buf[i] == MagicB && buf[i + 1] == MagicM
  }

  /** `buf` holds no `BM` pair anywhere. */
  predicate NoMagic(buf: seq<Byte>)
  {
    forall i :: 0 <= i < |buf| ==> !MagicAt(buf, i)
  }

  /** `s` is the lowest index at which the magic occurs: what
      `bytearray.find(b'BM')` returns when it does not return -1. */
  predicate IsFirstMagic(buf: seq<Byte>, s: int)
  {
    MagicAt(buf, s) && forall i :: 0 <= i < s ==> !MagicAt(buf, i)
  }

  /** Left-to-right scan for the magic from index `from`. */
  function FindMagicFrom(buf: seq<Byte>, from: nat): (r: Option<nat>)
    requires from <= |buf|
    ensures r.Some? ==>
      from <= r.value && MagicAt(buf, r.value)
      && forall i :: from <= i < r.value ==> !MagicAt(buf, i)
    ensures r.None? ==> forall i :: from <= i ==> !MagicAt(buf, i)
    decreases |buf| - from
  {
    if from + 1 >= |buf| then None
    else if MagicAt(buf, from) then Some(from)
    else FindMagicFrom(buf, from + 1)
  }

  /** `buf.find(b'BM')`, with -1 rendered as `None`. */
  function FindMagic(buf: seq<Byte>): (r: Option<nat>)
    ensures r.None? <==> NoMagic(buf)
    ensures r.Some? ==> IsFirstMagic(buf, r.value)
  {
    FindMagicFrom(buf, 0)
  }

  /** `struct.unpack("<I", w)[0]`: four bytes, least significant first. */
  function DecodeU32LE(w: seq<Byte>): (n: nat)
    requires |w| == 4
    ensures n < U32Limit
  {
    w[0] + 0x100 * (w[1] as int) + 0x1_0000 * (w[2] as int)
      + 0x100_0000 * (w[3] as int)
  }

  /** `struct.pack("<I", n)`, the writer side of the size field. */
  function EncodeU32LE(n: nat): (w: seq<Byte>)
    requires n < U32Limit
    ensures |w| == 4
  {
    [n % 0x100, (n / 0x100) % 0x100, (n / 0x1_0000) % 0x100, n / 0x100_0000]
  }

  /** Unpacking what was packed gives the number back. */
  lemma DecodeEncodeU32(n: nat)
    requires n < U32Limit
    ensures DecodeU32LE(EncodeU32LE(n)) == n
  {
    var w := EncodeU32LE(n);
    assert n == n % 0x100 + 0x100 * (n / 0x100);
    assert n / 0x100 == (n / 0x100) % 0x100 + 0x100 * (n / 0x1_0000);
    assert n / 0x1_0000 == (n / 0x1_0000) % 0x100 + 0x100 * (n / 0x100_0000);
  }

  /** Packing what was unpacked gives the four bytes back, so the field
      and its value determine each other. */
  lemma EncodeDecodeU32(w: seq<Byte>)
    requires |w| == 4
    ensures EncodeU32LE(DecodeU32LE(w)) == w
  {
    var n := DecodeU32LE(w);
    var h1 := w[1] + 0x100 * (w[2] as int) + 0x1_0000 * (w[3] as int);
    var h2 := w[2] + 0x100 * (w[3] as int);
    assert n == w[0] + 0x100 * h1;
    SplitAt8(w[0], h1);
    SplitAt8(w[1], h2);
    assert n == (w[0] + 0x100 * (w[1] as int)) + 0x1_0000 * h2;
    SplitAt16(w[0] + 0x100 * (w[1] as int), h2);
    SplitAt8(w[2], w[3]);
    assert n == (w[0] + 0x100 * (w[1] as int) + 0x1_0000 * (w[2] as int)) + 0x100_0000 * (w[3] as int);
    SplitAt24(w[0] + 0x100 * (w[1] as int) + 0x1_0000 * (w[2] as int), w[3]);
  }

  /** Quotient and remainder of a number written in two parts. */
  lemma SplitAt8(lo: int, hi: int)
    requires 0 <= lo < 0x100 && 0 <= hi
    ensures (lo + 0x100 * hi) / 0x100 == hi && (lo + 0x100 * hi) % 0x100 == lo
  {
  }

  lemma SplitAt16(lo: int, hi: int)
    requires 0 <= lo < 0x1_0000 && 0 <= hi
    ensures (lo + 0x1_0000 * hi) / 0x1_0000 == hi
  {
  }

  lemma SplitAt24(lo: int, hi: int)
    requires 0 <= lo < 0x100_0000 && 0 <= hi
    ensures (lo + 0x100_0000 * hi) / 0x100_0000 == hi
  {
  }

  /** The `bfSize` field of a header whose magic sits at `s`: the file's
      total length in bytes, counted from `s`. */
  function DeclaredSize(buf: seq<Byte>, s: nat): (n: nat)
    requires s + HeaderPrefixLength <= |buf|
    ensures n < U32Limit
  {
    DecodeU32LE(buf[s + 2 .. s + HeaderPrefixLength])
  }

  /** The declared size spelled out byte by byte. */
  lemma DeclaredSizeBytes(buf: seq<Byte>, s: nat)
    requires s + HeaderPrefixLength <= |buf|
    ensures DeclaredSize(buf, s)
            == buf[s + 2] + 256 * (buf[s + 3] as int)
               + 65536 * (buf[s + 4] as int) + 16777216 * (buf[s + 5] as int)
  {
  }

  /** Dropping the bytes before a header keeps its magic and its size. */
  lemma HeaderAfterDrop(buf: seq<Byte>, s: nat)
    requires s + HeaderPrefixLength <= |buf|
    ensures DeclaredSize(buf[s..], 0) == DeclaredSize(buf, s)
    ensures MagicAt(buf, s) ==> MagicAt(buf[s..], 0)
  {
    assert buf[s..][2..6] == buf[s + 2 .. s + 6];
  }

  /** A complete BMP file as far as the viewer can tell: magic at 0 and a
      size field equal to the file's own length. */
  predicate WellFormedBmp(image: seq<Byte>)
  {
    && |image| >= HeaderPrefixLength
    && image[..2] == Magic
    && DeclaredSize(image, 0) == |image|
  }

  /** Sequence facts about `NoMagic` used when the viewer scans a stream
      made of several messages. */
  lemma NoMagicAppend(a: seq<Byte>, b: seq<Byte>)
    requires NoMagic(a) && NoMagic(b)
    requires a == [] || b == [] || a[|a| - 1] != MagicB || b[0] != MagicM
    ensures NoMagic(a + b)
  {
    var ab := a + b;
    forall i | 0 <= i
      ensures !MagicAt(ab, i)
    {
      if i + 1 < |a| {
        assert !MagicAt(a, i);
      } else if i + 1 == |a| {
      } else if i >= |a| && i + 1 < |ab| {
        assert !MagicAt(b, i - |a|);
      }
    }
  }

  /** Everything before the first magic holds no magic. */
  lemma NoMagicBeforeFirst(buf: seq<Byte>, s: nat)
    requires IsFirstMagic(buf, s)
    ensures NoMagic(buf[..s])
  {
    forall i | 0 <= i < s
      ensures !MagicAt(buf[..s], i)
    {
      assert !MagicAt(buf, i);
    }
  }

  /** A slice that starts at a magic and is at least two bytes long starts
      with the magic. */
  lemma SliceAtMagic(buf: seq<Byte>, s: nat, n: nat)
    requires MagicAt(buf, s) && s + n <= |buf|
    ensures n >= 2 ==> buf[s .. s + n][..2] == Magic
  {
    if n >= 2 {
      assert buf[s .. s + n][..2] == [buf[s], buf[s + 1]];
    }
  }

  /** A prefix with no magic followed by a well-formed BMP file: the first
      magic is where the file begins. No `BM` can straddle the two, since
      the file starts with `B`, not `M`. */
  lemma FirstMagicAfterPrefix(p: seq<Byte>, image: seq<Byte>, tail: seq<Byte>)
    requires NoMagic(p)
    requires WellFormedBmp(image)
    ensures IsFirstMagic(p + image + tail, |p|)
    ensures FindMagic(p + image + tail) == Some(|p|)
  {
    var buf := p + image + tail;
    assert buf[|p|] == image[0] && buf[|p| + 1] == image[1];
    assert image[0] == image[..2][0] == Magic[0] == MagicB;
    assert image[1] == image[..2][1] == Magic[1] == MagicM;
    assert MagicAt(buf, |p|);
    forall i | 0 <= i < |p|
      ensures !MagicAt(buf, i)
    {
      if i + 1 < |p| {
        assert !MagicAt(p, i);
      } else {
        assert buf[i + 1] == image[0];
      }
    }
    var r := FindMagic(buf);
    assert r.Some?;
    assert !(r.value < |p|) && !(r.value > |p|);
  }
}
