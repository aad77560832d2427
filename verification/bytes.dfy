/** Byte-level vocabulary of the repair tool: bytes, 32-bit signed integers and the
    little-endian two's-complement conversion the length prefix of every frame uses. */
module Bytes {

  /** One byte of the log file. */
  newtype byte = x: int | 0 <= x < 0x100

  /** Go's `int32`: the type the length prefix is decoded into. */
  newtype int32 = x: int | -0x8000_0000 <= x < 0x8000_0000

  const TwoTo32: int := 0x1_0000_0000
  const TwoTo31: int := 0x8000_0000

  /** The unsigned value of a byte sequence read least significant byte first. */
  function LittleEndian(b: seq<byte>): nat
  {
    if b == [] then 0 else b[0] as int + 0x100 * LittleEndian(b[1..])
  }

  /** The little-endian value of four bytes, written out. */
  lemma LittleEndian4(b: seq<byte>)
    requires |b| == 4
    ensures LittleEndian(b) == b[0] as int + 0x100 * b[1] as int + 0x1_0000 * b[2] as int + 0x100_0000 * b[3] as int
    ensures LittleEndian(b) < TwoTo32
  {
    var t1, t2, t3 := b[1..], b[2..], b[3..];
    assert t1[1..] == t2 && t2[1..] == t3 && t3[1..] == [];
    assert LittleEndian(t3) == b[3] as int;
    assert LittleEndian(t2) == b[2] as int + 0x100 * b[3] as int;
    assert LittleEndian(t1) == b[1] as int + 0x100 * b[2] as int + 0x1_0000 * b[3] as int;
  }

  /** Reinterpreting an unsigned 32-bit pattern as a two's-complement value. */
  function ToSigned32(u: nat): (v: int32)
    requires u < TwoTo32
    ensures v as int == (if u >= TwoTo31 then u - TwoTo32 else u)
  {
    if u >= TwoTo31 then (u - TwoTo32) as int32 else u as int32
  }

  /** The unsigned 32-bit pattern of a signed value (two's complement). */
  function Unsigned(v: int32): (u: nat)
    ensures u < TwoTo32
    ensures ToSigned32(u) == v
  {
    if v < 0 then v as int + TwoTo32 else v as int
  }

  /** `BinaryToInt32`: `binary.Read` of an `int32` in little-endian order from the
      buffer. Fewer than four bytes make `binary.Read` fail and the result is 0;
      bytes after the fourth are not read. */
  function BinaryToInt32(b: seq<byte>): (v: int32)
    ensures |b| < 4 ==> v == 0
  {
    if |b| < 4 then 0
    else
      LittleEndian4(b[..4]);
      ToSigned32(LittleEndian(b[..4]))
  }

  /** What `BinaryToInt32` computes on four or more bytes:
      `b0 + 2^8 b1 + 2^16 b2 + 2^24 b3`, less `2^32` when the sign bit of `b3` is
      set; so the value is negative exactly when `b3 >= 0x80`. */
  lemma BinaryToInt32Value(b: seq<byte>)
    requires |b| >= 4
    ensures BinaryToInt32(b) as int
            == b[0] as int + 0x100 * b[1] as int + 0x1_0000 * b[2] as int + 0x100_0000 * b[3] as int
               - (if b[3] >= 0x80 then TwoTo32 else 0)
    ensures BinaryToInt32(b) < 0 <==> b[3] >= 0x80
  {
    LittleEndian4(b[..4]);
  }

  /** The four bytes `binary.Write` produces for an `int32` in little-endian order:
      the inverse of `BinaryToInt32`, used to state what a well-formed prefix is. */
  function Int32ToBinary(v: int32): (b: seq<byte>)
    ensures |b| == 4
    ensures LittleEndian(b) == Unsigned(v)
  {
    var u0 := Unsigned(v);
    var u1 := u0 / 0x100;
    var u2 := u1 / 0x100;
    var u3 := u2 / 0x100;
    assert u0 == u0 % 0x100 + 0x100 * u1;
    assert u1 == u1 % 0x100 + 0x100 * u2;
    assert u2 == u2 % 0x100 + 0x100 * u3;
    assert u3 < 0x100 by {
      assert u1 < 0x100_0000;
      assert u2 < 0x1_0000;
    }
    var b: seq<byte> := [(u0 % 0x100) as byte, (u1 % 0x100) as byte, (u2 % 0x100) as byte, u3 as byte];
    LittleEndian4(b);
    b
  }

  /** Encoding and then decoding a value gives the value back. */
  lemma Int32RoundTrip(v: int32)
    ensures BinaryToInt32(Int32ToBinary(v)) == v
  {
    var b := Int32ToBinary(v);
    assert b[..4] == b;
  }

  /** Every four-byte sequence is the encoding of the value it decodes to. */
  lemma BinaryRoundTrip(b: seq<byte>)
    requires |b| == 4
    ensures Int32ToBinary(BinaryToInt32(b)) == b
  {
    var e := Int32ToBinary(BinaryToInt32(b));
    assert b[..4] == b;
    LittleEndian4(b);
    LittleEndian4(e);
    assert Unsigned(BinaryToInt32(b)) == LittleEndian(b);
    LittleEndianInjective(e, b);
    assert e == b;
  }

  /** Four bytes are determined by their little-endian value. */
  lemma LittleEndianInjective(a: seq<byte>, c: seq<byte>)
    requires |a| == 4 && |c| == 4
    requires LittleEndian(a) == LittleEndian(c)
    ensures a == c
  {
    LittleEndian4(a);
    LittleEndian4(c);
    LowByteUnique(a[0], a[1] as int + 0x100 * a[2] as int + 0x1_0000 * a[3] as int,
                  c[0], c[1] as int + 0x100 * c[2] as int + 0x1_0000 * c[3] as int);
    LowByteUnique(a[1], a[2] as int + 0x100 * a[3] as int, c[1], c[2] as int + 0x100 * c[3] as int);
    LowByteUnique(a[2], a[3] as int, c[2], c[3] as int);
  }

  /** The low byte and the rest of a number are unique. */
  lemma LowByteUnique(lo: byte, hi: int, lo': byte, hi': int)
    requires lo as int + 0x100 * hi == lo' as int + 0x100 * hi'
    ensures lo == lo' && hi == hi'
  {
  }

  /** A decoded prefix lies in [0, limit] (for a limit below 256) exactly when its
      three high bytes are zero and its low byte is at most the limit. */
  lemma SmallValue(b: seq<byte>, limit: nat)
    requires |b| >= 4 && limit < 0x100
    ensures 0 <= BinaryToInt32(b) as int <= limit
        <==> b[1] == 0 && b[2] == 0 && b[3] == 0 && b[0] as int <= limit
  {
    BinaryToInt32Value(b);
  }
}
