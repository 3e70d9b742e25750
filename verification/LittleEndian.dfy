/** Little-endian integers of any width, and that reading and writing them are inverse. */
module LittleEndian {
  type Byte = b: int | 0 <= b < 256

  /** 256 to the power of `width`. */
  function Capacity(width: nat): (c: nat)
    ensures c > 0
  {
    if width == 0 then 1 else 256 * Capacity(width - 1)
  }

  function Encode(v: nat, width: nat): (s: seq<Byte>)
    ensures |s| == width
  {
    if width == 0 then [] else [v % 256] + Encode(v / 256, width - 1)
  }

  function Decode(s: seq<Byte>): nat {
    if s == [] then 0 else s[0] + 256 * Decode(s[1..])
  }

  lemma {:induction false} DecodeBounded(s: seq<Byte>)
    ensures Decode(s) < Capacity(|s|)
    decreases |s|
  {
    if s != [] {
      DecodeBounded(s[1..]);
    }
  }

  lemma {:induction false} DecodeEncode(v: nat, width: nat)
    requires v < Capacity(width)
    ensures Decode(Encode(v, width)) == v
    decreases width
  {
    if width > 0 {
      DecodeEncode(v / 256, width - 1);
      assert Encode(v, width)[1..] == Encode(v / 256, width - 1);
    }
  }

  lemma {:induction false} EncodeDecode(s: seq<Byte>)
    ensures Encode(Decode(s), |s|) == s
    decreases |s|
  {
    if s != [] {
      EncodeDecode(s[1..]);
      assert Decode(s) % 256 == s[0] && Decode(s) / 256 == Decode(s[1..]);
    }
  }

  lemma Capacities()
    ensures Capacity(4) == 0x1_0000_0000 && Capacity(8) == 0x1_0000_0000_0000_0000
  {
    assert Capacity(1) == 256 && Capacity(2) == 0x1_0000 && Capacity(4) == 0x1_0000_0000;
  }

  /** Four bytes, the lowest first. */
  lemma DecodeFour(s: seq<Byte>)
    requires |s| == 4
    ensures Decode(s) == s[0] + 0x100 * (s[1] as int) + 0x1_0000 * (s[2] as int) + 0x100_0000 * (s[3] as int)
  {
    assert Decode(s[1..]) == s[1] + 256 * Decode(s[2..]) by { assert s[1..][1..] == s[2..]; }
    assert Decode(s[2..]) == s[2] + 256 * Decode(s[3..]) by { assert s[2..][1..] == s[3..]; }
    assert Decode(s[3..]) == s[3] by { assert s[3..][1..] == []; }
  }

  lemma DecodeEight(s: seq<Byte>)
    requires |s| == 8
    ensures Decode(s) == s[0] + 0x100 * (s[1] as int) + 0x1_0000 * (s[2] as int) + 0x100_0000 * (s[3] as int)
                         + 0x1_0000_0000 * (s[4] as int) + 0x100_0000_0000 * (s[5] as int)
                         + 0x1_0000_0000_0000 * (s[6] as int) + 0x100_0000_0000_0000 * (s[7] as int)
  {
    assert Decode(s[1..]) == s[1] + 256 * Decode(s[2..]) by { assert s[1..][1..] == s[2..]; }
    assert Decode(s[2..]) == s[2] + 256 * Decode(s[3..]) by { assert s[2..][1..] == s[3..]; }
    assert Decode(s[3..]) == s[3] + 256 * Decode(s[4..]) by { assert s[3..][1..] == s[4..]; }
    DecodeFour(s[4..]);
  }

  // ---- Words in a byte string, byte by byte ----

  ghost function U16(b: seq<Byte>, at: nat): nat
    requires at + 2 <= |b|
  {
    b[at] + 0x100 * (b[at + 1] as int)
  }

  ghost function U32(b: seq<Byte>, at: nat): nat
    requires at + 4 <= |b|
  {
    b[at] + 0x100 * (b[at + 1] as int) + 0x1_0000 * (b[at + 2] as int) + 0x100_0000 * (b[at + 3] as int)
  }

  ghost function U64(b: seq<Byte>, at: nat): nat
    requires at + 8 <= |b|
  {
    U32(b, at) + 0x1_0000_0000 * U32(b, at + 4)
  }

  lemma Decoded16(b: seq<Byte>, at: nat)
    requires at + 2 <= |b|
    ensures Decode(b[at..at + 2]) == U16(b, at)
  {
    var s := b[at..at + 2];
    assert Decode(s[1..]) == s[1] by { assert s[1..][1..] == []; }
  }

  lemma Decoded32(b: seq<Byte>, at: nat)
    requires at + 4 <= |b|
    ensures Decode(b[at..at + 4]) == U32(b, at)
  {
    DecodeFour(b[at..at + 4]);
  }

  lemma Decoded64(b: seq<Byte>, at: nat)
    requires at + 8 <= |b|
    ensures Decode(b[at..at + 8]) == U64(b, at)
  {
    DecodeEight(b[at..at + 8]);
  }
}
