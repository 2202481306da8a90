/** Bytes and the big-endian integer layouts `java.io.DataOutputStream`
    writes and `java.io.DataInputStream` reads: the unsigned 16-bit length in
    front of a `writeUTF` string and the signed 64-bit two's-complement
    `writeLong`/`readLong` value. */
module Bytes {
  import opened JavaText

  type byte = x: int | 0 <= x < 256

  const TwoTo64: int := 0x1_0000_0000_0000_0000

  function Pow256(k: nat): (p: nat)
    ensures p >= 1
  {
    if k == 0 then 1 else 256 * Pow256(k - 1)
  }

  /** The `k` bytes of `u`, most significant first. */
  function ToBigEndian(u: nat, k: nat): (r: seq<byte>)
    requires u < Pow256(k)
    ensures |r| == k
  {
    if k == 0 then []
    else
      assert u / 256 < Pow256(k - 1) by { DivBound(u, Pow256(k - 1)); }
      ToBigEndian(u / 256, k - 1) + [u % 256]
  }

  /** The unsigned value of the bytes, most significant first. */
  function FromBigEndian(bs: seq<byte>): (r: nat)
    ensures r < Pow256(|bs|)
  {
    if |bs| == 0 then 0
    else
      var high := FromBigEndian(bs[..|bs| - 1]);
      MulBound(high, Pow256(|bs| - 1), bs[|bs| - 1]);
      high * 256 + bs[|bs| - 1]
  }

  lemma DivBound(u: nat, p: nat)
    requires u < 256 * p
    ensures u / 256 < p
  {
  }

  lemma MulBound(h: nat, p: nat, b: byte)
    requires h < p
    ensures h * 256 + b < 256 * p
  {
  }

  lemma {:induction false} FromToBigEndian(u: nat, k: nat)
    requires u < Pow256(k)
    ensures FromBigEndian(ToBigEndian(u, k)) == u
    decreases k
  {
    if k > 0 {
      var r := ToBigEndian(u, k);
      assert r[..k - 1] == ToBigEndian(u / 256, k - 1);
      FromToBigEndian(u / 256, k - 1);
    }
  }

  lemma {:induction false} ToFromBigEndian(bs: seq<byte>)
    ensures ToBigEndian(FromBigEndian(bs), |bs|) == bs
    decreases |bs|
  {
    if |bs| > 0 {
      var high := FromBigEndian(bs[..|bs| - 1]);
      var u := FromBigEndian(bs);
      assert u / 256 == high && u % 256 == bs[|bs| - 1];
      ToFromBigEndian(bs[..|bs| - 1]);
      assert bs == bs[..|bs| - 1] + [bs[|bs| - 1]];
    }
  }

  /** The two-byte length prefix of `writeUTF`. */
  function EncodeU16(n: int): (r: seq<byte>)
    requires 0 <= n < 0x1_0000
    ensures |r| == 2 && FromBigEndian(r) == n
  {
    FromToBigEndian(n, 2);
    ToBigEndian(n, 2)
  }

  /** `writeLong(v)`: eight bytes of the two's-complement form of `v`. */
  function EncodeLong(v: int): (r: seq<byte>)
    requires InLong(v)
    ensures |r| == 8
    ensures v >= 0 <==> r[0] < 0x80
  {
    var u := if v < 0 then v + TwoTo64 else v;
    var r := ToBigEndian(u, 8);
    FromToBigEndian(u, 8);
    assert FromBigEndian(r) == FromBigEndian(r[..7]) * 256 + r[7];
    FirstByteOfLong(r);
    r
  }

  /** `readLong()` of eight bytes. */
  function DecodeLong(bs: seq<byte>): (v: int)
    requires |bs| == 8
    ensures InLong(v)
    ensures v >= 0 <==> bs[0] < 0x80
  {
    var u := FromBigEndian(bs);
    FirstByteOfLong(bs);
    if u >= 0x8000_0000_0000_0000 then u - TwoTo64 else u
  }

  /** The top byte of an eight-byte big-endian value is below 0x80 exactly
      when the value is below 2^63. */
  lemma FirstByteOfLong(bs: seq<byte>)
    requires |bs| == 8
    ensures FromBigEndian(bs) < 0x8000_0000_0000_0000 <==> bs[0] < 0x80
  {
    var tail := bs[1..];
    assert Pow256(7) == 0x100_0000_0000_0000;
    var lowPart := FromBigEndian(tail);
    HighByteSplit(bs);
  }

  /** The value of a big-endian sequence is its first byte times the weight
      of the rest, plus the value of the rest. */
  lemma {:induction false} HighByteSplit(bs: seq<byte>)
    requires |bs| >= 1
    ensures FromBigEndian(bs) == bs[0] * Pow256(|bs| - 1) + FromBigEndian(bs[1..])
    decreases |bs|
  {
    if |bs| > 1 {
      var n := |bs|;
      var init := bs[..n - 1];
      var last := bs[n - 1];
      HighByteSplit(init);
      assert init[1..] == bs[1..][..n - 2];
      assert init[0] == bs[0];
      var low := FromBigEndian(init[1..]);
      var p := Pow256(n - 2);
      assert FromBigEndian(bs[1..]) == low * 256 + last;
      assert FromBigEndian(bs) == FromBigEndian(init) * 256 + last;
      Regroup256(bs[0], p, low, last);
    }
  }

  lemma Regroup256(a: int, p: int, low: int, last: int)
    ensures (a * p + low) * 256 + last == a * (256 * p) + (low * 256 + last)
  {
  }

  lemma LongRoundTrip(v: int)
    requires InLong(v)
    ensures DecodeLong(EncodeLong(v)) == v
  {
    var u := if v < 0 then v + TwoTo64 else v;
    FromToBigEndian(u, 8);
  }

  lemma LongBytesRoundTrip(bs: seq<byte>)
    requires |bs| == 8
    ensures EncodeLong(DecodeLong(bs)) == bs
  {
    ToFromBigEndian(bs);
  }
}
