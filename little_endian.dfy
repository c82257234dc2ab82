/** Little-endian unsigned integers, as `struct.unpack('<I', ...)` and
    `struct.unpack('<H', ...)` read them: the byte at the lowest address is the
    least significant one. */
module LittleEndian {

  /** One octet of the input stream. */
  type Byte = x: int | 0 <= x < 0x100

  /** 256 to the power `k`: one more than the largest value `k` bytes can hold. */
  function Pow256(k: nat): (r: nat)
    ensures r > 0
  {
    if k == 0 then 1 else 256 * Pow256(k - 1)
  }

  /** The unsigned value of `bs` read least significant byte first. */
  function Decode(bs: seq<Byte>): (n: nat)
    ensures n < Pow256(|bs|)
  {
    if bs == [] then 0 else bs[0] + 256 * Decode(bs[1..])
  }

  /** The `width` bytes that hold `n`, least significant byte first. */
  function Encode(n: nat, width: nat): (bs: seq<Byte>)
    requires n < Pow256(width)
    ensures |bs| == width
  {
    if width == 0 then [] else [n % 256] + Encode(n / 256, width - 1)
  }

  /** Decoding what was encoded gives the number back. */
  lemma {:induction false} DecodeEncode(n: nat, width: nat)
    requires n < Pow256(width)
    ensures Decode(Encode(n, width)) == n
  {
    if width > 0 {
      DecodeEncode(n / 256, width - 1);
      assert Encode(n, width)[1..] == Encode(n / 256, width - 1);
    }
  }

  /** Encoding a decoded field at its own width gives the bytes back: every
      byte string is the encoding of exactly one number. */
  lemma {:induction false} EncodeDecode(bs: seq<Byte>)
    ensures Encode(Decode(bs), |bs|) == bs
  {
    if bs != [] {
      var rest := Decode(bs[1..]);
      assert (bs[0] + 256 * rest) % 256 == bs[0];
      assert (bs[0] + 256 * rest) / 256 == rest;
      EncodeDecode(bs[1..]);
    }
  }

  /** A two-byte field (`'<H'`) is `b[0] + 256 * b[1]`, below 65536. */
  lemma U16(bs: seq<Byte>)
    requires |bs| == 2
    ensures Decode(bs) == bs[0] as int + 256 * bs[1] as int
    ensures Decode(bs) < 0x1_0000
  {
  }

  /** A four-byte field (`'<I'`) is the unsigned 32-bit value of its bytes. */
  lemma U32(bs: seq<Byte>)
    requires |bs| == 4
    ensures Decode(bs) == bs[0] as int + 0x100 * bs[1] as int + 0x1_0000 * bs[2] as int + 0x100_0000 * bs[3] as int
    ensures Decode(bs) < 0x1_0000_0000
  {
    var b1 := bs[1..];
    var b2 := b1[1..];
    var b3 := b2[1..];
    assert b3[1..] == [];
    assert Decode(b3) == bs[3];
    assert Decode(b2) == bs[2] as int + 256 * bs[3] as int;
    assert Decode(b1) == bs[1] as int + 256 * (bs[2] as int + 256 * bs[3] as int);
  }
}
