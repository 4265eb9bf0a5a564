/**
  The primitive readers and writers of NBTFile: fixed-width integers in
  network (big-endian) byte order and length-prefixed strings.

  A stream is a byte sequence; a write is the bytes it appends, a read takes
  the stream and an offset and returns the value and the offset after it.
  The source swaps the bytes of each integer by hand and relies on a
  little-endian host; what is modelled here is the effect on the wire: the
  most significant byte comes first.
 */
module Codec {
  import opened Wrappers
  import opened Binary

  /** What a read returns: the decoded value and the offset just past it. */
  datatype Read<T> = Read(value: T, next: nat)

  /** FromBigEndian spelled out for two bytes. */
  lemma FromBigEndian2(s: seq<byte>)
    requires |s| == 2
    ensures FromBigEndian(s) == s[0] as int * 0x100 + s[1]
  {
    assert s[..1][..0] == [];
    assert s[..1] == s[..|s| - 1];
  }

  /** FromBigEndian spelled out for four bytes. */
  lemma FromBigEndian4(s: seq<byte>)
    requires |s| == 4
    ensures FromBigEndian(s) == s[0] as int * 0x100_0000 + s[1] as int * 0x1_0000 + s[2] as int * 0x100 + s[3]
  {
    PrefixStep(s, 0);
    PrefixStep(s, 1);
    PrefixStep(s, 2);
    PrefixStep(s, 3);
    assert s[..4] == s;
  }

  /** FromBigEndian spelled out for eight bytes. */
  lemma FromBigEndian8(s: seq<byte>)
    requires |s| == 8
    ensures FromBigEndian(s) ==
      s[0] as int * 0x100_0000_0000_0000 + s[1] as int * 0x1_0000_0000_0000 + s[2] as int * 0x100_0000_0000 +
      s[3] as int * 0x1_0000_0000 + s[4] as int * 0x100_0000 + s[5] as int * 0x1_0000 + s[6] as int * 0x100 + s[7]
  {
    FromBigEndian4(s[..4]);
    PrefixStep(s, 4);
    PrefixStep(s, 5);
    PrefixStep(s, 6);
    PrefixStep(s, 7);
    assert s[..8] == s;
  }

  /** One Horner step: extending a prefix by one byte. */
  lemma PrefixStep(s: seq<byte>, k: nat)
    requires k < |s|
    ensures FromBigEndian(s[..k + 1]) == FromBigEndian(s[..k]) * 0x100 + s[k]
  {
    assert s[..k + 1][..k] == s[..k];
  }

  /**
    A value written with n bytes and read back at the offset it was written
    to, whatever precedes and follows it, is the value.
   */
  lemma FixedWidthRoundTrip(v: int, n: nat, pre: seq<byte>, post: seq<byte>)
    requires n >= 1 && InSigned(v, n)
    ensures (pre + BigEndian(Unsigned(v, n), n) + post)[|pre|..|pre| + n] == BigEndian(Unsigned(v, n), n)
    ensures Signed(FromBigEndian(BigEndian(Unsigned(v, n), n)), n) == v
  {
    var w := BigEndian(Unsigned(v, n), n);
    assert (pre + w + post)[|pre|..|pre| + n] == w;
    FromBigEndianOfBigEndian(Unsigned(v, n), n);
    ModUnique(Unsigned(v, n), Pow256(n), 0, Unsigned(v, n));
    SignedOfUnsigned(v, n);
  }

  /** Any n bytes, read as a value and written back, reproduce themselves. */
  lemma FixedWidthBytesRoundTrip(b: seq<byte>)
    requires |b| >= 1
    ensures BigEndian(Unsigned(Signed(FromBigEndian(b), |b|), |b|), |b|) == b
  {
    UnsignedOfSigned(FromBigEndian(b), |b|);
    BigEndianOfFromBigEndian(b);
  }

  // ---------------------------------------------------------------- byte

  /** writeByte: the bit pattern of v as one byte. */
  function WriteByte(v: int8): (r: seq<byte>)
    ensures |r| == 1 && r[0] == Unsigned(v, 1)
  {
    Pow256Values();
    BigEndian(Unsigned(v, 1), 1)
  }

  /** readByte: one byte, taken as a signed 8-bit value. */
  function ReadByte(s: seq<byte>, off: nat): (r: Read<int8>)
    requires off + 1 <= |s|
    ensures r.next == off + 1
    ensures Unsigned(r.value, 1) == s[off]
  {
    Pow256Values();
    assert s[off..off + 1] == [s[off]];
    assert FromBigEndian(s[off..off + 1]) == s[off];
    UnsignedOfSigned(s[off], 1);
    Read(Signed(FromBigEndian(s[off..off + 1]), 1), off + 1)
  }

  lemma ByteRoundTrip(v: int8, pre: seq<byte>, post: seq<byte>)
    ensures ReadByte(pre + WriteByte(v) + post, |pre|) == Read(v, |pre| + 1)
  {
    Pow256Values();
    FixedWidthRoundTrip(v, 1, pre, post);
  }

  lemma ByteBytesRoundTrip(s: seq<byte>, off: nat)
    requires off + 1 <= |s|
    ensures WriteByte(ReadByte(s, off).value) == s[off..off + 1]
  {
    FixedWidthBytesRoundTrip(s[off..off + 1]);
  }

  // ---------------------------------------------------------------- short

  /** writeShort: the two bytes of v's 16-bit pattern, most significant first. */
  function WriteShort(v: int16): (r: seq<byte>)
    ensures |r| == 2
    ensures r[0] as int * 0x100 + r[1] == Unsigned(v, 2)
  {
    Pow256Values();
    var u := Unsigned(v, 2);
    FromBigEndianOfBigEndian(u, 2);
    ModUnique(u, Pow256(2), 0, u);
    FromBigEndian2(BigEndian(u, 2));
    BigEndian(u, 2)
  }

  /** readShort: two bytes, most significant first, as a signed 16-bit value. */
  function ReadShort(s: seq<byte>, off: nat): (r: Read<int16>)
    requires off + 2 <= |s|
    ensures r.next == off + 2
    ensures Unsigned(r.value, 2) == s[off] as int * 0x100 + s[off + 1]
  {
    Pow256Values();
    var u := FromBigEndian(s[off..off + 2]);
    FromBigEndian2(s[off..off + 2]);
    UnsignedOfSigned(u, 2);
    Read(Signed(u, 2), off + 2)
  }

  /** A short written and read back at the same offset is the original value. */
  lemma ShortRoundTrip(v: int16, pre: seq<byte>, post: seq<byte>)
    ensures ReadShort(pre + WriteShort(v) + post, |pre|) == Read(v, |pre| + 2)
  {
    Pow256Values();
    FixedWidthRoundTrip(v, 2, pre, post);
  }

  /** Any two bytes read as a short and written back reproduce themselves. */
  lemma ShortBytesRoundTrip(s: seq<byte>, off: nat)
    requires off + 2 <= |s|
    ensures WriteShort(ReadShort(s, off).value) == s[off..off + 2]
  {
    FixedWidthBytesRoundTrip(s[off..off + 2]);
  }

  // ---------------------------------------------------------------- int

  /** writeInt: the four bytes of v's 32-bit pattern, most significant first. */
  function WriteInt(v: int32): (r: seq<byte>)
    ensures |r| == 4
    ensures r[0] as int * 0x100_0000 + r[1] as int * 0x1_0000 + r[2] as int * 0x100 + r[3] == Unsigned(v, 4)
  {
    Pow256Values();
    var u := Unsigned(v, 4);
    FromBigEndianOfBigEndian(u, 4);
    ModUnique(u, Pow256(4), 0, u);
    FromBigEndian4(BigEndian(u, 4));
    BigEndian(u, 4)
  }

  /** readInt: four bytes, most significant first, as a signed 32-bit value. */
  function ReadInt(s: seq<byte>, off: nat): (r: Read<int32>)
    requires off + 4 <= |s|
    ensures r.next == off + 4
    ensures Unsigned(r.value, 4) ==
      s[off] as int * 0x100_0000 + s[off + 1] as int * 0x1_0000 + s[off + 2] as int * 0x100 + s[off + 3]
  {
    Pow256Values();
    var u := FromBigEndian(s[off..off + 4]);
    FromBigEndian4(s[off..off + 4]);
    UnsignedOfSigned(u, 4);
    Read(Signed(u, 4), off + 4)
  }

  /** An int written and read back at the same offset is the original value. */
  lemma IntRoundTrip(v: int32, pre: seq<byte>, post: seq<byte>)
    ensures ReadInt(pre + WriteInt(v) + post, |pre|) == Read(v, |pre| + 4)
  {
    Pow256Values();
    FixedWidthRoundTrip(v, 4, pre, post);
  }

  /** Any four bytes read as an int and written back reproduce themselves. */
  lemma IntBytesRoundTrip(s: seq<byte>, off: nat)
    requires off + 4 <= |s|
    ensures WriteInt(ReadInt(s, off).value) == s[off..off + 4]
  {
    FixedWidthBytesRoundTrip(s[off..off + 4]);
  }

  // ---------------------------------------------------------------- long

  /** writeLong: the eight bytes of v's 64-bit pattern, most significant first. */
  function WriteLong(v: int64): (r: seq<byte>)
    ensures |r| == 8
    ensures r[0] as int * 0x100_0000_0000_0000 + r[1] as int * 0x1_0000_0000_0000 + r[2] as int * 0x100_0000_0000 +
            r[3] as int * 0x1_0000_0000 + r[4] as int * 0x100_0000 + r[5] as int * 0x1_0000 + r[6] as int * 0x100 + r[7]
            == Unsigned(v, 8)
  {
    Pow256Values();
    var u := Unsigned(v, 8);
    FromBigEndianOfBigEndian(u, 8);
    ModUnique(u, Pow256(8), 0, u);
    FromBigEndian8(BigEndian(u, 8));
    BigEndian(u, 8)
  }

  /** readLong: eight bytes, most significant first, as a signed 64-bit value. */
  function ReadLong(s: seq<byte>, off: nat): (r: Read<int64>)
    requires off + 8 <= |s|
    ensures r.next == off + 8
    ensures Unsigned(r.value, 8) ==
      s[off] as int * 0x100_0000_0000_0000 + s[off + 1] as int * 0x1_0000_0000_0000 + s[off + 2] as int * 0x100_0000_0000 +
      s[off + 3] as int * 0x1_0000_0000 + s[off + 4] as int * 0x100_0000 + s[off + 5] as int * 0x1_0000 +
      s[off + 6] as int * 0x100 + s[off + 7]
  {
    Pow256Values();
    var u := FromBigEndian(s[off..off + 8]);
    FromBigEndian8(s[off..off + 8]);
    UnsignedOfSigned(u, 8);
    Read(Signed(u, 8), off + 8)
  }

  /** A long written and read back at the same offset is the original value. */
  lemma LongRoundTrip(v: int64, pre: seq<byte>, post: seq<byte>)
    ensures ReadLong(pre + WriteLong(v) + post, |pre|) == Read(v, |pre| + 8)
  {
    Pow256Values();
    FixedWidthRoundTrip(v, 8, pre, post);
  }

  /** Any eight bytes read as a long and written back reproduce themselves. */
  lemma LongBytesRoundTrip(s: seq<byte>, off: nat)
    requires off + 8 <= |s|
    ensures WriteLong(ReadLong(s, off).value) == s[off..off + 8]
  {
    FixedWidthBytesRoundTrip(s[off..off + 8]);
  }

  // ---------------------------------------------------------------- string

  /**
    writeString: the byte length, cast to a signed 16-bit integer and written
    as a short, then the bytes themselves.  The cast keeps only the low 16
    bits of the length.
   */
  function WriteString(s: seq<byte>): (r: seq<byte>)
    ensures |r| == 2 + |s|
    ensures r[0] as int * 0x100 + r[1] == |s| % 0x1_0000
    ensures r[2..] == s
  {
    Pow256Values();
    UnsignedOfSigned(Unsigned(|s|, 2), 2);
    WriteShort(Wrap(|s|, 2)) + s
  }

  /**
    What readString needs of the stream at off: a length prefix, a length
    that is not negative as a signed short, and that many bytes after it.
   */
  predicate CanReadString(s: seq<byte>, off: nat)
  {
    && off + 2 <= |s|
    && ReadShort(s, off).value >= 0
    && off + 2 + ReadShort(s, off).value <= |s|
  }

  /** readString: a signed 16-bit length, then that many raw bytes. */
  function ReadString(s: seq<byte>, off: nat): (r: Read<seq<byte>>)
    requires CanReadString(s, off)
    ensures |r.value| == s[off] as int * 0x100 + s[off + 1]
    ensures r.next == off + 2 + |r.value|
    ensures r.value == s[off + 2..r.next]
  {
    Pow256Values();
    var len := ReadShort(s, off).value;
    assert Unsigned(len, 2) == len;
    Read(s[off + 2..off + 2 + len], off + 2 + len)
  }

  /** A string of at most 32767 bytes written and read back is the original string. */
  lemma StringRoundTrip(s: seq<byte>, pre: seq<byte>, post: seq<byte>)
    requires |s| <= 0x7FFF
    ensures CanReadString(pre + WriteString(s) + post, |pre|)
    ensures ReadString(pre + WriteString(s) + post, |pre|) == Read(s, |pre| + 2 + |s|)
  {
    Pow256Values();
    var w := WriteString(s);
    var t := pre + w + post;
    assert t[|pre|] == w[0] && t[|pre| + 1] == w[1];
    var len := ReadShort(t, |pre|).value;
    assert Unsigned(len, 2) == len;
    assert t[|pre| + 2..|pre| + 2 + |s|] == w[2..] by {
      assert t[|pre|..|pre| + |w|] == w;
    }
  }

  /** Any string readString accepts, written again, reproduces its prefix and bytes. */
  lemma StringBytesRoundTrip(s: seq<byte>, off: nat)
    requires CanReadString(s, off)
    ensures WriteString(ReadString(s, off).value) == s[off..ReadString(s, off).next]
  {
    var r := ReadString(s, off);
    PrefixBytes(WriteString(r.value), s, off, r.next);
  }

  /**
    Bytes that start with a 2-byte big-endian count of the bytes after them
    are the writeString output of those bytes.
   */
  lemma PrefixBytes(w: seq<byte>, s: seq<byte>, off: nat, next: nat)
    requires off + 2 <= next <= |s| && next - off - 2 < 0x1_0000
    requires s[off] as int * 0x100 + s[off + 1] == next - off - 2
    requires w == WriteString(s[off + 2..next])
    ensures w == s[off..next]
  {
    BytePairUnique(w[0], w[1], s[off], s[off + 1]);
    assert w[2..] == s[off..next][2..];
  }

  /** Two bytes are the base-256 digits of at most one number. */
  lemma BytePairUnique(a: byte, b: byte, c: byte, d: byte)
    requires a as int * 0x100 + b == c as int * 0x100 + d
    ensures a == c && b == d
  {
  }

  // ---------------------------------------------------------------- findings

  /**
    A string of 32768 to 65535 bytes is written with a length prefix whose
    top bit is set; readString takes that prefix as a negative short and
    cannot read the string back.
   */
  lemma LongStringUnreadable(s: seq<byte>)
    requires 0x8000 <= |s| <= 0xFFFF
    ensures ReadShort(WriteString(s), 0).value < 0
    ensures !CanReadString(WriteString(s), 0)
  {
    Pow256Values();
  }

  /** What readString needs once the length prefix is taken as unsigned. */
  predicate CanReadStringU16(s: seq<byte>, off: nat)
  {
    off + 2 <= |s| && off + 2 + (s[off] as int * 0x100 + s[off + 1]) <= |s|
  }

  /** readString with the length prefix read as the unsigned 16-bit count it is. */
  function ReadStringU16(s: seq<byte>, off: nat): (r: Read<seq<byte>>)
    requires CanReadStringU16(s, off)
    ensures |r.value| == s[off] as int * 0x100 + s[off + 1]
    ensures r.next == off + 2 + |r.value|
    ensures r.value == s[off + 2..r.next]
  {
    var len := s[off] as int * 0x100 + s[off + 1];
    Read(s[off + 2..off + 2 + len], off + 2 + len)
  }

  /** With an unsigned prefix every string of up to 65535 bytes reads back. */
  lemma StringRoundTripU16(s: seq<byte>, pre: seq<byte>, post: seq<byte>)
    requires |s| <= 0xFFFF
    ensures CanReadStringU16(pre + WriteString(s) + post, |pre|)
    ensures ReadStringU16(pre + WriteString(s) + post, |pre|) == Read(s, |pre| + 2 + |s|)
  {
    var w := WriteString(s);
    var t := pre + w + post;
    assert t[|pre|] == w[0] && t[|pre| + 1] == w[1];
    assert t[|pre| + 2..|pre| + 2 + |s|] == w[2..] by {
      assert t[|pre|..|pre| + |w|] == w;
    }
  }

  /** Any string the unsigned reader accepts, written again, reproduces its prefix and bytes. */
  lemma StringBytesRoundTripU16(s: seq<byte>, off: nat)
    requires CanReadStringU16(s, off)
    ensures WriteString(ReadStringU16(s, off).value) == s[off..ReadStringU16(s, off).next]
  {
    var r := ReadStringU16(s, off);
    PrefixBytes(WriteString(r.value), s, off, r.next);
  }

  /**
    A string of 65536 bytes or more is written with only the low 16 bits of
    its length, so even an unsigned reader gets back a proper prefix of it.
   */
  lemma OversizeStringTruncated(s: seq<byte>)
    requires |s| >= 0x1_0000
    ensures CanReadStringU16(WriteString(s), 0)
    ensures ReadStringU16(WriteString(s), 0).value == s[..|s| % 0x1_0000]
    ensures ReadStringU16(WriteString(s), 0).value != s
  {
    var w := WriteString(s);
    assert w[2..2 + |s| % 0x1_0000] == s[..|s| % 0x1_0000];
  }

  /** writeString that refuses a string whose byte length does not fit the prefix. */
  function WriteStringChecked(s: seq<byte>): (r: Option<seq<byte>>)
    ensures r.Some? <==> |s| <= 0xFFFF
    ensures r.Some? ==> CanReadStringU16(r.value, 0) && ReadStringU16(r.value, 0) == Read(s, 2 + |s|)
  {
    if |s| <= 0xFFFF then
      StringRoundTripU16(s, [], []);
      assert [] + WriteString(s) + [] == WriteString(s);
      Some(WriteString(s))
    else
      None
  }
}
