/** Fixed-width little-endian integers, as the wire and storage formats write them. */
module LittleEndian {

  type Byte = x: nat | x < 256
  type Bytes = seq<Byte>
  type U32 = x: nat | x < 0x1_0000_0000
  type U64 = x: nat | x < 0x1_0000_0000_0000_0000

  function Power256(width: nat): (p: nat)
    ensures p > 0
  {
    if width == 0 then 1 else 256 * Power256(width - 1)
  }

  /** The low `width` bytes of `n`, least significant first. */
  function Encode(n: nat, width: nat): (bytes: Bytes)
    ensures |bytes| == width
  {
    if width == 0 then [] else [n % 256] + Encode(n / 256, width - 1)
  }

  function Decode(bytes: Bytes): (n: nat)
    ensures n < Power256(|bytes|)
    decreases |bytes|
  {
    if bytes == [] then 0 else bytes[0] + 256 * Decode(bytes[1..])
  }

  lemma {:induction false} DecodeEncode(n: nat, width: nat)
    requires n < Power256(width)
    ensures Decode(Encode(n, width)) == n
  {
    if width > 0 {
      assert n / 256 < Power256(width - 1);
      DecodeEncode(n / 256, width - 1);
      assert Encode(n, width)[1..] == Encode(n / 256, width - 1);
    }
  }

  lemma {:induction false} EncodeDecode(bytes: Bytes)
    ensures Encode(Decode(bytes), |bytes|) == bytes
    decreases |bytes|
  {
    if bytes != [] {
      EncodeDecode(bytes[1..]);
      var rest := Decode(bytes[1..]);
      assert (bytes[0] + 256 * rest) % 256 == bytes[0] && (bytes[0] + 256 * rest) / 256 == rest;
      assert bytes == [bytes[0]] + bytes[1..];
    }
  }

  /** Only the value modulo the width's range is written. */
  lemma {:induction false} EncodeIsPeriodic(n: nat, k: nat, width: nat)
    ensures Encode(n + k * Power256(width), width) == Encode(n, width)
  {
    if width > 0 {
      var low := k * Power256(width - 1);
      assert k * Power256(width) == 256 * low;
      assert (n + 256 * low) % 256 == n % 256 && (n + 256 * low) / 256 == n / 256 + low;
      EncodeIsPeriodic(n / 256, k, width - 1);
    }
  }

  lemma Widths()
    ensures Power256(4) == 0x1_0000_0000 && Power256(8) == 0x1_0000_0000_0000_0000
  {
    assert Power256(2) == 0x1_0000;
    assert Power256(4) == 256 * (256 * Power256(2));
    assert Power256(6) == 256 * (256 * Power256(4));
    assert Power256(8) == 256 * (256 * Power256(6));
  }

  lemma RoundTrip32(n: U32)
    ensures Decode(Encode(n, 4)) == n
  {
    Widths();
    DecodeEncode(n, 4);
  }

  lemma RoundTrip64(n: U64)
    ensures Decode(Encode(n, 8)) == n
  {
    Widths();
    DecodeEncode(n, 8);
  }

  function Zeros(n: nat): (z: Bytes)
    ensures |z| == n
    ensures forall k | 0 <= k < n :: z[k] == 0
  {
    seq(n, _ => 0)
  }
}
