/** The fragment of Python's `struct` module that the bitmap writer uses, with
    the '=' byte order fixed to little-endian:

    - 'i': a signed 32-bit integer in four bytes,
    - 'h': a signed 16-bit integer in two bytes,
    - 'B': an unsigned byte (the caller checks the range),
    - 'x': a zero pad byte.

    The 'i' and 'h' packers each have an unpacker, and each pair is proved
    inverse in both directions on the packer's range. 'B' is not packed
    here: the pixel encoder checks the channel range and emits the byte. */
module Struct {

  /** One byte of output. */
  type Byte = b: int | 0 <= b < 256

  const Two16: int := 0x1_0000
  const Two32: int := 0x1_0000_0000

  /** The values `struct.pack` accepts for an 'i' field. */
  predicate IsInt32(v: int) {
    -0x8000_0000 <= v < 0x8000_0000
  }

  /** The values `struct.pack` accepts for an 'h' field. */
  predicate IsInt16(v: int) {
    -0x8000 <= v < 0x8000
  }

  /** 'i': two's complement, least significant byte first. */
  function PackInt32(v: int): (r: seq<Byte>)
    requires IsInt32(v)
    ensures |r| == 4
    ensures r[3] < 0x80 <==> v >= 0
  {
    var u := if v < 0 then v + Two32 else v;
    var u1 := u / 0x100;
    var u2 := u1 / 0x100;
    [u % 0x100, u1 % 0x100, u2 % 0x100, u2 / 0x100]
  }

  /** Reads back an 'i' field. */
  function UnpackInt32(s: seq<Byte>): (v: int)
    requires |s| == 4
    ensures IsInt32(v)
  {
    var u: int := s[0] as int + 0x100 * (s[1] as int + 0x100 * (s[2] as int + 0x100 * s[3] as int));
    if u < 0x8000_0000 then u else u - Two32
  }

  /** 'h': two's complement, least significant byte first. */
  function PackInt16(v: int): (r: seq<Byte>)
    requires IsInt16(v)
    ensures |r| == 2
    ensures r[1] < 0x80 <==> v >= 0
  {
    var u := if v < 0 then v + Two16 else v;
    [u % 0x100, u / 0x100]
  }

  /** Reads back an 'h' field. */
  function UnpackInt16(s: seq<Byte>): (v: int)
    requires |s| == 2
    ensures IsInt16(v)
  {
    var u: int := s[0] as int + 0x100 * s[1] as int;
    if u < 0x8000 then u else u - Two16
  }

  /** 'x' repeated n times (the "%sx" pad of a row, the "4x" of the file header). */
  function PadBytes(n: nat): (r: seq<Byte>)
    ensures |r| == n
    ensures forall i :: 0 <= i < n ==> r[i] == 0
  {
    seq(n, _ => 0)
  }

  lemma Int32RoundTrip(v: int)
    requires IsInt32(v)
    ensures UnpackInt32(PackInt32(v)) == v
  {
    var u := if v < 0 then v + Two32 else v;
    var u1 := u / 0x100;
    var u2 := u1 / 0x100;
    var r := PackInt32(v);
    assert u2 == r[2] as int + 0x100 * r[3] as int;
    assert u1 == r[1] as int + 0x100 * u2;
    assert u == r[0] as int + 0x100 * u1;
  }

  lemma Int32Unpacked(s: seq<Byte>)
    requires |s| == 4
    ensures PackInt32(UnpackInt32(s)) == s
  {
    var u2: int := s[2] as int + 0x100 * s[3] as int;
    var u1: int := s[1] as int + 0x100 * u2;
    var u: int := s[0] as int + 0x100 * u1;
    ByteDigit(s[0], u1);
    ByteDigit(s[1], u2);
    ByteDigit(s[2], s[3]);
    var r := PackInt32(UnpackInt32(s));
    assert r[0] == s[0] && r[1] == s[1] && r[2] == s[2] && r[3] == s[3];
  }

  /** Splitting off the least significant byte of a + 256 * q. */
  lemma ByteDigit(a: Byte, q: int)
    ensures (a as int + 0x100 * q) % 0x100 == a as int
    ensures (a as int + 0x100 * q) / 0x100 == q
  {
  }

  lemma Int16RoundTrip(v: int)
    requires IsInt16(v)
    ensures UnpackInt16(PackInt16(v)) == v
  {
  }

  lemma Int16Unpacked(s: seq<Byte>)
    requires |s| == 2
    ensures PackInt16(UnpackInt16(s)) == s
  {
    var r := PackInt16(UnpackInt16(s));
    assert r[0] == s[0] && r[1] == s[1];
  }
}
