/** Fixed-width integers, bytes and byte strings shared by the wire codec, the connection layer and the services. */
module Bytes {

  /** One octet on the wire (C++ uint8_t). */
  type Byte = b: int | 0 <= b < 0x100

  /** C++ uint16_t. */
  type U16 = n: int | 0 <= n < 0x1_0000

  /** C++ uint32_t. */
  type U32 = n: int | 0 <= n < 0x1_0000_0000

  /** C++ int32_t. */
  type Int32 = n: int | -0x8000_0000 <= n < 0x8000_0000

  /** A C++ std::string is a sequence of 8-bit chars: every character has a code below 256. */
  predicate IsNarrow(s: string)
  {
    forall i | 0 <= i < |s| :: s[i] as int < 0x100
  }

  type Narrow = s: string | IsNarrow(s) witness ""

  /** Two bytes, low byte first. */
  function LE16(n: U16): (r: seq<Byte>)
    ensures |r| == 2 && r[0] as int + 0x100 * r[1] as int == n
  {
    [n % 0x100, n / 0x100]
  }

  /** Two bytes read back low byte first are exactly the two bytes LE16 writes. */
  lemma LE16Of(lo: Byte, hi: Byte)
    ensures LE16(lo as int + 0x100 * hi as int) == [lo, hi]
  {
    var n := lo as int + 0x100 * hi as int;
    assert n / 0x100 == hi;
  }

  /** The bytes of a narrow string, one per character (static_cast<uint8_t>). */
  function ToBytes(s: Narrow): (r: seq<Byte>)
    ensures |r| == |s|
    ensures forall i | 0 <= i < |s| :: r[i] == s[i] as int
  {
    seq(|s|, i requires 0 <= i < |s| => s[i] as int)
  }

  /** The characters of a byte sequence, one per byte (static_cast<char>). */
  function FromBytes(b: seq<Byte>): (s: Narrow)
    ensures |s| == |b|
    ensures forall i | 0 <= i < |b| :: s[i] as int == b[i]
  {
    seq(|b|, i requires 0 <= i < |b| => b[i] as char)
  }

  lemma BytesRoundTrip(s: Narrow)
    ensures FromBytes(ToBytes(s)) == s
  {
    var r := FromBytes(ToBytes(s));
    assert |r| == |s|;
    forall i | 0 <= i < |s| ensures r[i] == s[i] {
      assert r[i] as int == s[i] as int;
    }
  }

  lemma NarrowConcat(a: Narrow, b: Narrow)
    ensures IsNarrow(a + b)
  {
    forall i | 0 <= i < |a + b| ensures (a + b)[i] as int < 0x100 {
      if i < |a| { assert (a + b)[i] == a[i]; } else { assert (a + b)[i] == b[i - |a|]; }
    }
  }
}
