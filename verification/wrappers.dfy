/** The Option type and the minimum, shared by the other modules. */
module Wrappers {
  datatype Option<+T> = None | Some(value: T) {
    function GetOr(default: T): T {
      match this
      case Some(v) => v
      case None => default
    }
  }

  function Min(a: int, b: int): int { if a < b then a else b }
}

/** Bytes and the two's complement truncations that the C and Go sources rely on. */
module Bits {
  type byte = x: int | 0 <= x < 256

  /** Conversion to uchar keeps the low eight bits. */
  function Byte(v: int): byte { v % 256 }

  /** A 32-bit store, low byte first; >> on a negative int32 rounds down, like Dafny's / here. */
  function LittleEndian32(v: int): (bytes: seq<byte>)
    ensures |bytes| == 4
  {
    [Byte(v), Byte(v / 0x100), Byte(v / 0x1_0000), Byte(v / 0x100_0000)]
  }

  lemma SliceFront(a: seq<byte>, p: nat, n: nat, k: nat)
    requires p + k <= n <= |a|
    ensures a[p..n][..k] == a[p..p + k]
  {
  }

  function SignExtend8(b: byte): int { if b < 128 then b else b - 256 }

  function Signed32(bytes: seq<byte>): int
    requires |bytes| == 4
  {
    bytes[0] + 0x100 * bytes[1] + 0x1_0000 * bytes[2] + 0x100_0000 * SignExtend8(bytes[3])
  }

  lemma ByteRoundTrip(v: int)
    requires -128 <= v < 128
    ensures SignExtend8(Byte(v)) == v
  {
  }

  /** The four bytes are the digits, to the base 256 and lowest first, of the value modulo 2^32. */
  lemma LittleEndianValue(v: int)
    ensures var bytes := LittleEndian32(v);
            var b0: int, b1: int, b2: int, b3: int := bytes[0], bytes[1], bytes[2], bytes[3];
            b0 + 0x100 * b1 + 0x1_0000 * b2 + 0x100_0000 * b3 == v % 0x1_0000_0000
  {
    var v1, v2, v3, v4 := v / 0x100, v / 0x1_0000, v / 0x100_0000, v / 0x1_0000_0000;
    assert v2 == v1 / 0x100 && v3 == v2 / 0x100 && v4 == v3 / 0x100;
    assert v == 0x100 * v1 + Byte(v) && v1 == 0x100 * v2 + Byte(v1);
    assert v2 == 0x100 * v3 + Byte(v2) && v3 == 0x100 * v4 + Byte(v3);
  }

  lemma LittleEndianRoundTrip(v: int)
    requires -0x8000_0000 <= v < 0x8000_0000
    ensures Signed32(LittleEndian32(v)) == v
  {
    var v1, v2, v3 := v / 0x100, v / 0x1_0000, v / 0x100_0000;
    assert v2 == v1 / 0x100 && v3 == v2 / 0x100;
    assert v == 0x100 * v1 + Byte(v) && v1 == 0x100 * v2 + Byte(v1) && v2 == 0x100 * v3 + Byte(v2);
    ByteRoundTrip(v3);
  }
}
