/** SerializeString/DeserializeString and SerializeInt32/DeserializeInt32: the payload codecs. */
module Codec {
  import opened Bytes

  // ---------------------------------------------------------------------------
  // Length-prefixed strings
  // ---------------------------------------------------------------------------

  /** What SerializeString produces: the length cast to uint16_t, low byte first, then every character. */
  function EncodeString(s: Narrow): (r: seq<Byte>)
    ensures |r| == 2 + |s|
  {
    LE16(|s| % 0x1_0000) + ToBytes(s)
  }

  /** The 16-bit little-endian length prefix that DeserializeString reads at `offset`. */
  function PrefixAt(data: seq<Byte>, offset: nat): (n: U16)
    requires offset + 2 <= |data|
  {
    data[offset] as int + 0x100 * data[offset + 1] as int
  }

  /**
   * What DeserializeString returns, paired with the caller's offset afterwards: "" with the offset untouched
   * when fewer than two bytes remain, "" with the offset moved past the prefix when the declared length
   * overruns the data, and otherwise the characters and the offset moved past them.
   */
  function DecodeString(data: seq<Byte>, offset: nat): (Narrow, nat)
  {
    if offset + 2 > |data| then ("", offset)
    else
      var length := PrefixAt(data, offset);
      if offset + 2 + length > |data| then ("", offset + 2)
      else (FromBytes(data[offset + 2 .. offset + 2 + length]), offset + 2 + length)
  }

  method SerializeString(str: Narrow) returns (data: seq<Byte>)
    ensures data == EncodeString(str)
  {
    var length: U16 := |str| % 0x1_0000;
    data := [length % 0x100, (length / 0x100) % 0x100];
    var i := 0;
    while i < |str|
      invariant 0 <= i <= |str|
      invariant data == LE16(length) + ToBytes(str[..i])
    {
      assert ToBytes(str[..i + 1]) == ToBytes(str[..i]) + [str[i] as int];
      data := data + [str[i] as int];
      i := i + 1;
    }
    assert str[..i] == str;
  }

  method DeserializeString(data: seq<Byte>, offset: nat) returns (str: Narrow, next: nat)
    ensures (str, next) == DecodeString(data, offset)
    ensures offset + 2 > |data| ==> str == "" && next == offset
    ensures offset + 2 <= |data| && offset + 2 + PrefixAt(data, offset) > |data| ==> str == "" && next == offset + 2
    ensures offset + 2 <= |data| && offset + 2 + PrefixAt(data, offset) <= |data| ==>
              next == offset + 2 + |str| && |str| == PrefixAt(data, offset) && ToBytes(str) == data[offset + 2 .. next]
  {
    next := offset;
    if next + 2 > |data| {
      return "", next;
    }
    var length: U16 := data[next] as int + data[next + 1] as int * 0x100;
    next := next + 2;
    if next + length > |data| {
      return "", next;
    }
    str := "";
    var i := 0;
    while i < length
      invariant 0 <= i <= length
      invariant str == FromBytes(data[next .. next + i])
    {
      assert data[next .. next + i + 1] == data[next .. next + i] + [data[next + i]];
      NarrowConcat(str, [data[next + i] as char]);
      str := str + [data[next + i] as char];
      i := i + 1;
    }
    next := next + length;
    assert ToBytes(str) == data[offset + 2 .. next];
  }

  /** A string of at most 65535 characters decodes back from its encoding, wherever it sits in a buffer. */
  lemma {:induction false} StringRoundTrip(pre: seq<Byte>, s: Narrow, rest: seq<Byte>)
    requires |s| <= 0xFFFF
    ensures DecodeString(pre + EncodeString(s) + rest, |pre|) == (s, |pre| + 2 + |s|)
  {
    var data := pre + EncodeString(s) + rest;
    var o := |pre|;
    assert data[o] == (|s| % 0x1_0000) % 0x100 && data[o + 1] == (|s| % 0x1_0000) / 0x100;
    assert PrefixAt(data, o) == |s|;
    assert data[o + 2 .. o + 2 + |s|] == ToBytes(s);
    BytesRoundTrip(s);
  }

  /**
   * A longer string is emitted in full, but its prefix holds the length modulo 65536, so decoding yields only
   * that many leading characters.
   */
  lemma {:induction false} LongStringTruncates(s: Narrow)
    requires |s| > 0xFFFF
    ensures DecodeString(EncodeString(s), 0) == (s[..|s| % 0x1_0000], 2 + |s| % 0x1_0000)
    ensures DecodeString(EncodeString(s), 0).0 != s
  {
    var data := EncodeString(s);
    var n := |s| % 0x1_0000;
    assert PrefixAt(data, 0) == n;
    assert data[2 .. 2 + n] == ToBytes(s[..n]);
    BytesRoundTrip(s[..n]);
  }

  // ---------------------------------------------------------------------------
  // 32-bit integers
  // ---------------------------------------------------------------------------

  /** The two's-complement bit pattern of a signed 32-bit value. */
  function Bits32(v: Int32): (u: U32)
    ensures v >= 0 ==> u == v
    ensures v < 0 ==> u == v + 0x1_0000_0000
  {
    v % 0x1_0000_0000
  }

  /** The signed 32-bit value whose two's-complement bit pattern is `u`. */
  function Signed32(u: U32): (v: Int32)
    ensures Bits32(v) == u
  {
    if u < 0x8000_0000 then u else u - 0x1_0000_0000
  }

  /** What SerializeInt32 appends: the four bytes of the two's-complement pattern, lowest first. */
  function EncodeInt32(v: Int32): (r: seq<Byte>)
    ensures |r| == 4
  {
    var u := Bits32(v);
    [u % 0x100, (u / 0x100) % 0x100, (u / 0x1_0000) % 0x100, u / 0x100_0000]
  }

  /** The unsigned value of four little-endian bytes at `offset`. */
  function Word32At(data: seq<Byte>, offset: nat): (u: U32)
    requires offset + 4 <= |data|
  {
    data[offset] as int + 0x100 * data[offset + 1] as int + 0x1_0000 * data[offset + 2] as int
      + 0x100_0000 * data[offset + 3] as int
  }

  /** What DeserializeInt32 returns with the caller's offset afterwards: (0, offset) when fewer than four bytes remain. */
  function DecodeInt32(data: seq<Byte>, offset: nat): (Int32, nat)
  {
    if offset + 4 > |data| then (0, offset)
    else (Signed32(Word32At(data, offset)), offset + 4)
  }

  /** `(value >> 8*k) & 0xFF` on a signed value equals byte k of its two's-complement pattern. */
  lemma ShiftedByte(v: Int32, d: int)
    requires d == 1 || d == 0x100 || d == 0x1_0000 || d == 0x100_0000
    ensures (v / d) % 0x100 == (Bits32(v) / d) % 0x100
  {
    if v < 0 {
      var u := v + 0x1_0000_0000;
      assert Bits32(v) == u;
      if d == 0x100 {
        assert u / 0x100 == v / 0x100 + 0x100 * 0x1_0000;
        ByteOfShift(v / 0x100, 0x1_0000);
      } else if d == 0x1_0000 {
        assert u / 0x1_0000 == v / 0x1_0000 + 0x100 * 0x100;
        ByteOfShift(v / 0x1_0000, 0x100);
      } else if d == 0x100_0000 {
        assert u / 0x100_0000 == v / 0x100_0000 + 0x100 * 1;
        ByteOfShift(v / 0x100_0000, 1);
      } else {
        ByteOfShift(v, 0x100_0000);
      }
    }
  }

  /** Adding a multiple of 256 leaves the low byte alone. */
  lemma ByteOfShift(q: int, m: int)
    ensures (q + 0x100 * m) % 0x100 == q % 0x100
  {
  }

  method SerializeInt32(data: seq<Byte>, value: Int32) returns (out: seq<Byte>)
    ensures out == data + EncodeInt32(value)
    ensures |out| == |data| + 4 && out[..|data|] == data
  {
    ShiftedByte(value, 1);
    ShiftedByte(value, 0x100);
    ShiftedByte(value, 0x1_0000);
    ShiftedByte(value, 0x100_0000);
    out := data + [value % 0x100];
    out := out + [(value / 0x100) % 0x100];
    out := out + [(value / 0x1_0000) % 0x100];
    out := out + [(value / 0x100_0000) % 0x100];
    assert out[..|data|] == data;
  }

  method DeserializeInt32(data: seq<Byte>, offset: nat) returns (value: Int32, next: nat)
    ensures (value, next) == DecodeInt32(data, offset)
    ensures offset + 4 > |data| ==> value == 0 && next == offset
    ensures offset + 4 <= |data| ==> next == offset + 4 && Bits32(value) == Word32At(data, offset)
  {
    if offset + 4 > |data| {
      return 0, offset;
    }
    var u: U32 := data[offset] as int + data[offset + 1] as int * 0x100
      + data[offset + 2] as int * 0x1_0000 + data[offset + 3] as int * 0x100_0000;
    value := if u < 0x8000_0000 then u else u - 0x1_0000_0000;
    next := offset + 4;
  }

  /** Reassembling the four bytes gives back the bit pattern. */
  lemma Word32OfEncode(v: Int32)
    ensures Word32At(EncodeInt32(v), 0) == Bits32(v)
  {
    var u := Bits32(v);
    var b := EncodeInt32(v);
    assert u == b[0] + 0x100 * (u / 0x100);
    assert u / 0x100 == b[1] + 0x100 * (u / 0x1_0000);
    assert u / 0x1_0000 == b[2] + 0x100 * (u / 0x100_0000);
  }

  /** SerializeInt32 then DeserializeInt32 at the old end returns the value and advances the offset by four. */
  lemma {:induction false} Int32RoundTrip(pre: seq<Byte>, v: Int32, rest: seq<Byte>)
    ensures DecodeInt32(pre + EncodeInt32(v) + rest, |pre|) == (v, |pre| + 4)
  {
    var data := pre + EncodeInt32(v) + rest;
    var o := |pre|;
    assert data[o .. o + 4] == EncodeInt32(v);
    assert Word32At(data, o) == Word32At(EncodeInt32(v), 0);
    Word32OfEncode(v);
  }
}
