/** The little-endian scalar readers picasso_read_u8/u16_le/u32_le/s32_le, over a
    byte sequence and an offset instead of a raw pointer, together with the matching
    encoders used to state their round trips. */
module LittleEndian {
  import opened Machine

  function ReadU8(s: seq<u8>, off: nat): (r: u8)
    requires off < |s|
  {
    s[off]
  }

  /** Two bytes, least significant first. */
  function ReadU16(s: seq<u8>, off: nat): (r: u16)
    requires off + 2 <= |s|
    ensures r as int % 0x100 == s[off] && r as int / 0x100 == s[off + 1]
  {
    ReadU8(s, off) as int + ReadU8(s, off + 1) as int * 0x100
  }

  /** Built, as in the source, from two 16-bit halves; the result is the
      base-256 number whose digits are the four bytes, low byte first. */
  function ReadU32(s: seq<u8>, off: nat): (r: u32)
    requires off + 4 <= |s|
    ensures r == s[off] as int + s[off + 1] as int * 0x100 + s[off + 2] as int * 0x1_0000
                 + s[off + 3] as int * 0x100_0000
  {
    ReadU16(s, off) as int + ReadU16(s, off + 2) as int * 0x1_0000
  }

  /** The same 32 bits read as a two's-complement signed integer. */
  function ReadS32(s: seq<u8>, off: nat): (r: i32)
    requires off + 4 <= |s|
    ensures r as int % 0x1_0000_0000 == ReadU32(s, off)
    ensures (r < 0) == (s[off + 3] >= 0x80)
  {
    var u := ReadU32(s, off);
    if u >= 0x8000_0000 then u - 0x1_0000_0000 else u
  }

  function EncodeU16(v: u16): (r: seq<u8>)
    ensures |r| == 2
  {
    [v % 0x100, v / 0x100]
  }

  function EncodeU32(v: u32): (r: seq<u8>)
    ensures |r| == 4
  {
    EncodeU16(v % 0x1_0000) + EncodeU16(v / 0x1_0000)
  }

  lemma ReadEncodeU16(v: u16)
    ensures ReadU16(EncodeU16(v), 0) == v
  {
  }

  lemma EncodeReadU16(s: seq<u8>)
    requires |s| == 2
    ensures EncodeU16(ReadU16(s, 0)) == s
  {
  }

  /** Reading back an encoded 32-bit value gives the value. */
  lemma ReadEncodeU32(v: u32)
    ensures ReadU32(EncodeU32(v), 0) == v
  {
    var e := EncodeU32(v);
    assert e[0..2] == EncodeU16(v % 0x1_0000);
    assert e[2..4] == EncodeU16(v / 0x1_0000);
    assert ReadU16(e, 0) == v % 0x1_0000;
    assert ReadU16(e, 2) == v / 0x1_0000;
  }

  /** Encoding the value read from four bytes gives back those bytes. */
  lemma EncodeReadU32(s: seq<u8>)
    requires |s| == 4
    ensures EncodeU32(ReadU32(s, 0)) == s
  {
    var lo, hi := ReadU16(s, 0), ReadU16(s, 2);
    var v := ReadU32(s, 0);
    assert v % 0x1_0000 == lo && v / 0x1_0000 == hi;
    EncodeReadU16(s[0..2]);
    EncodeReadU16(s[2..4]);
    assert s == s[0..2] + s[2..4];
  }
}
