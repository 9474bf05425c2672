/** Raw memory as the samples see it: bytes, 32-bit `int`s stored in host
    byte order, and the `memcpy`/`std::fill` primitives the host-side code
    is built from. */
module Bytes {

  newtype byte = x: int | 0 <= x < 0x100

  /** C++ `int` on the platforms the samples target. */
  newtype int32 = x: int | -0x8000_0000 <= x < 0x8000_0000

  /** `sizeof(int)`. */
  const IntSize: nat := 4

  /** The bytes of `v` in memory: two's complement, little-endian (the byte
      order of the hosts the runtime supports). */
  function EncodeInt32(v: int32): (bs: seq<byte>)
    ensures |bs| == IntSize
    ensures bs[IntSize - 1] >= 0x80 <==> v < 0
  {
    var u := if v < 0 then v as int + 0x1_0000_0000 else v as int;
    var u1 := u / 0x100;
    var u2 := u1 / 0x100;
    var u3 := u2 / 0x100;
    [(u % 0x100) as byte, (u1 % 0x100) as byte, (u2 % 0x100) as byte, u3 as byte]
  }

  /** The `int` stored in four bytes of memory. */
  function DecodeInt32(bs: seq<byte>): (v: int32)
    requires |bs| == IntSize
    ensures v < 0 <==> bs[IntSize - 1] >= 0x80
  {
    var u := bs[0] as int + 0x100 * bs[1] as int + 0x1_0000 * bs[2] as int + 0x100_0000 * bs[3] as int;
    if u >= 0x8000_0000 then (u - 0x1_0000_0000) as int32 else u as int32
  }

  /** Reading back a stored `int` yields the value stored. */
  lemma DecodeEncodeInt32(v: int32)
    ensures DecodeInt32(EncodeInt32(v)) == v
  {
    var u := if v < 0 then v as int + 0x1_0000_0000 else v as int;
    var u1 := u / 0x100;
    var u2 := u1 / 0x100;
    var u3 := u2 / 0x100;
    var bs := EncodeInt32(v);
    assert u1 == u1 % 0x100 + 0x100 * u2;
    assert u == u % 0x100 + 0x100 * u1;
    assert bs[0] as int + 0x100 * bs[1] as int + 0x1_0000 * bs[2] as int + 0x100_0000 * bs[3] as int == u;
  }

  /** Every four bytes are the image of exactly one `int`. */
  lemma EncodeDecodeInt32(bs: seq<byte>)
    requires |bs| == IntSize
    ensures EncodeInt32(DecodeInt32(bs)) == bs
  {
    var u3 := bs[3] as int;
    var u2 := bs[2] as int + 0x100 * u3;
    var u1 := bs[1] as int + 0x100 * u2;
    var u := bs[0] as int + 0x100 * u1;
    DigitSplit(bs[0] as int, u1);
    DigitSplit(bs[1] as int, u2);
    DigitSplit(bs[2] as int, u3);
    var r := EncodeInt32(DecodeInt32(bs));
    assert r[0] == bs[0] && r[1] == bs[1] && r[2] == bs[2] && r[3] == bs[3];
  }

  /** Splitting off the lowest base-256 digit. */
  lemma DigitSplit(lo: int, hi: int)
    requires 0 <= lo < 0x100
    ensures (lo + 0x100 * hi) % 0x100 == lo && (lo + 0x100 * hi) / 0x100 == hi
  {
  }

  /** `memcpy(dst + at, src, |src|)`: the bytes of `src` land at `at`,
      nothing else in `dst` changes. */
  method CopyBytes(dst: array<byte>, at: nat, src: seq<byte>)
    requires at + |src| <= dst.Length
    modifies dst
    ensures forall j :: 0 <= j < |src| ==> dst[at + j] == src[j]
    ensures forall j :: 0 <= j < dst.Length && !(at <= j < at + |src|) ==> dst[j] == old(dst[j])
  {
    var i := 0;
    while i < |src|
      invariant 0 <= i <= |src|
      invariant forall j :: 0 <= j < i ==> dst[at + j] == src[j]
      invariant forall j :: 0 <= j < dst.Length && !(at <= j < at + i) ==> dst[j] == old(dst[j])
    {
      dst[at + i] := src[i];
      i := i + 1;
    }
  }

  /** `std::fill(dst + lo, dst + hi, v)`. */
  method FillBytes(dst: array<byte>, lo: nat, hi: nat, v: byte)
    requires lo <= hi <= dst.Length
    modifies dst
    ensures forall j :: lo <= j < hi ==> dst[j] == v
    ensures forall j :: 0 <= j < dst.Length && !(lo <= j < hi) ==> dst[j] == old(dst[j])
  {
    var i := lo;
    while i < hi
      invariant lo <= i <= hi
      invariant forall j :: lo <= j < i ==> dst[j] == v
      invariant forall j :: 0 <= j < dst.Length && !(lo <= j < i) ==> dst[j] == old(dst[j])
    {
      dst[i] := v;
      i := i + 1;
    }
  }
}
