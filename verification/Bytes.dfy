/** Byte buffers and the fixed-width integer encodings used on the TPM wire and in event logs. */
module Bytes {

  newtype byte = x: int | 0 <= x < 0x100

  type ByteVec = seq<byte>

  function Zeros(n: nat): (z: ByteVec)
    ensures |z| == n
  {
    seq(n, _ => 0)
  }

  function Pow256(n: nat): (p: nat)
    ensures p > 0
  {
    if n == 0 then 1 else 256 * Pow256(n - 1)
  }

  /** The low `len` bytes of `val`, most significant first. */
  function BigEndian(val: nat, len: nat): (bs: ByteVec)
    ensures |bs| == len
    decreases len
  {
    if len == 0 then [] else BigEndian(val / 256, len - 1) + [(val % 256) as byte]
  }

  function FromBigEndian(bs: ByteVec): nat {
    if bs == [] then 0 else FromBigEndian(bs[..|bs| - 1]) * 256 + bs[|bs| - 1] as int
  }

  /** The low `len` bytes of `val`, least significant first. */
  function LittleEndian(val: nat, len: nat): (bs: ByteVec)
    ensures |bs| == len
    decreases len
  {
    if len == 0 then [] else [(val % 256) as byte] + LittleEndian(val / 256, len - 1)
  }

  function FromLittleEndian(bs: ByteVec): nat {
    if bs == [] then 0 else bs[0] as int + 256 * FromLittleEndian(bs[1..])
  }

  lemma {:induction false} BigEndianRoundTrip(val: nat, len: nat)
    requires val < Pow256(len)
    ensures FromBigEndian(BigEndian(val, len)) == val
    decreases len
  {
    if len == 0 {
    } else {
      BigEndianRoundTrip(val / 256, len - 1);
      var bs := BigEndian(val, len);
      assert bs[..|bs| - 1] == BigEndian(val / 256, len - 1);
    }
  }

  lemma {:induction false} LittleEndianRoundTrip(val: nat, len: nat)
    requires val < Pow256(len)
    ensures FromLittleEndian(LittleEndian(val, len)) == val
    decreases len
  {
    if len == 0 {
    } else {
      LittleEndianRoundTrip(val / 256, len - 1);
      assert LittleEndian(val, len)[1..] == LittleEndian(val / 256, len - 1);
    }
  }

  lemma {:induction false} FromBigEndianBound(bs: ByteVec)
    ensures FromBigEndian(bs) < Pow256(|bs|)
  {
    if bs == [] {
    } else {
      FromBigEndianBound(bs[..|bs| - 1]);
    }
  }

  lemma {:induction false} FromLittleEndianBound(bs: ByteVec)
    ensures FromLittleEndian(bs) < Pow256(|bs|)
  {
    if bs == [] {
    } else {
      FromLittleEndianBound(bs[1..]);
    }
  }

  /** The widths that occur: 1, 2, 4 and 8 bytes. */
  lemma Pow256Values()
    ensures Pow256(1) == 0x100 && Pow256(2) == 0x1_0000
    ensures Pow256(4) == 0x1_0000_0000 && Pow256(8) == 0x1_0000_0000_0000_0000
  {
    assert Pow256(3) == 0x100_0000;
    assert Pow256(5) == 0x100_0000_0000;
    assert Pow256(7) == 0x100_0000_0000_0000;
  }

  function Concat(parts: seq<ByteVec>): ByteVec {
    if parts == [] then [] else parts[0] + Concat(parts[1..])
  }

  lemma {:induction false} ConcatAppend(a: seq<ByteVec>, b: seq<ByteVec>)
    ensures Concat(a + b) == Concat(a) + Concat(b)
  {
    if a == [] {
      assert a + b == b;
    } else {
      assert (a + b)[1..] == a[1..] + b;
      ConcatAppend(a[1..], b);
    }
  }

  lemma ConcatSnoc(a: seq<ByteVec>, x: ByteVec)
    ensures Concat(a + [x]) == Concat(a) + x
  {
    ConcatAppend(a, [x]);
    assert Concat([x]) == x + Concat([x][1..]) == x;
  }
}
