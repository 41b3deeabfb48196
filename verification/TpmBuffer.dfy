/** The marshaling buffer of TpmMarshal.h: a byte vector with a position, back-patched sizes and
    a stack of the sized structures being read. */
module TpmBuffers {
  import opened Bytes
  import opened Wrappers

  /** OutOfBounds is the exception of checkLen. OutsideBuffer marks the reads for which the code
      has no check: it would touch memory outside the vector. */
  datatype MarshalError = OutOfBounds | OutsideBuffer

  datatype SizedStructInfo = SizedStructInfo(startPos: nat, size: nat)

  /** The integer widths that are marshaled. */
  predicate IsWidth(len: nat) {
    len == 1 || len == 2 || len == 4 || len == 8
  }

  /** `b` with `data` written over it at position `p`. */
  function Splice(b: ByteVec, p: nat, data: ByteVec): (r: ByteVec)
    requires p + |data| <= |b|
    ensures |r| == |b|
    ensures r[..p] == b[..p] && r[p..p + |data|] == data && r[p + |data|..] == b[p + |data|..]
  {
    b[..p] + data + b[p + |data|..]
  }

  lemma SpliceTwice(b: ByteVec, p: nat, x: ByteVec, y: ByteVec)
    requires p + |x| + |y| <= |b|
    ensures Splice(Splice(b, p, x), p + |x|, y) == Splice(b, p, x + y)
  {}

  lemma SpliceBefore(b: ByteVec, p: nat, x: ByteVec, y: ByteVec)
    requires p + |x| + |y| <= |b|
    ensures Splice(Splice(b, p + |x|, y), p, x) == Splice(b, p, x + y)
  {}

  lemma SpliceNothing(b: ByteVec, p: nat)
    requires p <= |b|
    ensures Splice(b, p, []) == b
  {}

  class TpmBuffer {
    var buf: ByteVec
    var pos: nat
    var outOfBounds: bool
    var sizedStructSizes: seq<SizedStructInfo>

    /** Output buffer of the given capacity, zero-filled. */
    constructor Output(capacity: nat)
      ensures buf == Zeros(capacity) && pos == 0 && !outOfBounds && sizedStructSizes == []
    {
      buf, pos, outOfBounds, sizedStructSizes := Zeros(capacity), 0, false, [];
    }

    /** Input buffer over marshaled data. */
    constructor Input(src: ByteVec)
      ensures buf == src && pos == 0 && !outOfBounds && sizedStructSizes == []
    {
      buf, pos, outOfBounds, sizedStructSizes := src, 0, false, [];
    }

    /** Writes may start anywhere up to the end of the buffer. */
    predicate Ready()
      reads this
    {
      pos <= |buf| && !outOfBounds
    }

    method SetCurPos(newPos: nat)
      modifies this`pos, this`outOfBounds
      ensures pos == newPos && outOfBounds == (|buf| < newPos)
    {
      pos := newPos;
      outOfBounds := |buf| < newPos;
    }

    method Trim() returns (b: ByteVec)
      modifies this`buf
      ensures b == buf && |buf| == pos
      ensures pos <= |old(buf)| ==> buf == old(buf)[..pos]
    {
      if pos <= |buf| {
        buf := buf[..pos];
      } else {
        buf := buf + Zeros(pos - |buf|);
      }
      b := buf;
    }

    method CheckLen(len: nat) returns (r: Outcome<MarshalError>)
      modifies this`pos, this`outOfBounds
      ensures r.Pass? <==> old(pos) + len <= |buf|
      ensures r.Pass? ==> pos == old(pos) && outOfBounds == old(outOfBounds)
      ensures r.Fail? ==> r.error == OutOfBounds && pos == |buf| && outOfBounds
    {
      if |buf| < pos + len {
        outOfBounds := true;
        pos := |buf|;
        return Fail(OutOfBounds);
      }
      r := Pass;
    }

    /** One store through the cursor: buf[pos++] = b. */
    method Put(b: byte)
      requires pos < |buf|
      modifies this`buf, this`pos
      ensures pos == old(pos) + 1 && buf == Splice(old(buf), old(pos), [b])
    {
      buf := buf[pos := b];
      pos := pos + 1;
    }

    /** Int64ToTpm: the bytes selected by shifts, most significant first. */
    method Int64ToTpm(val: nat, len: nat)
      requires IsWidth(len) && pos + len <= |buf|
      modifies this`buf, this`pos
      ensures pos == old(pos) + len && buf == Splice(old(buf), old(pos), BigEndian(val, len))
    {
      hide Splice, LowPair;
      ghost var b0, p0 := buf, pos;
      ghost var out: ByteVec := [];
      SpliceNothing(b0, p0);
      if len == 8 {
        var h := val / 0x1_0000_0000;
        PutPair(h / 0x1_0000, b0, p0, []);
        PutPair(h, b0, p0, [] + LowPair(h / 0x1_0000));
        HighQuad(h);
        out := BigEndian(h, 4);
      }
      if len >= 4 {
        PutPair(val / 0x1_0000, b0, p0, out);
        out := out + LowPair(val / 0x1_0000);
      }
      if len >= 2 {
        PutPair(val, b0, p0, out);
      } else {
        Put((val % 0x100) as byte);
      }
      ShiftsAreBigEndian(val, len);
    }

    /** Two consecutive stores of a shifted value. `out` was written to `b0` at `p0` before. */
    method PutPair(val: nat, ghost b0: ByteVec, ghost p0: nat, ghost out: ByteVec)
      requires pos + 2 <= |buf| == |b0| && p0 + |out| == pos && buf == Splice(b0, p0, out)
      modifies this`buf, this`pos
      ensures pos == old(pos) + 2 && |buf| == |b0| && buf == Splice(b0, p0, out + LowPair(val))
    {
      hide Splice;
      ghost var b, p := buf, pos;
      var hi, lo := ((val / 0x100) % 0x100) as byte, (val % 0x100) as byte;
      Put(hi);
      Put(lo);
      SpliceTwice(b, p, [hi], [lo]);
      SpliceTwice(b0, p0, out, LowPair(val));
    }

    /** Int64FromTpm. */
    method Int64FromTpm(len: nat) returns (res: nat)
      requires IsWidth(len) && pos + len <= |buf|
      modifies this`pos
      ensures pos == old(pos) + len && res == FromBigEndian(buf[old(pos)..pos])
    {
      ghost var p0 := pos;
      res := 0;
      if len == 8 {
        res := res + buf[pos] as int * 0x100_0000_0000_0000;
        res := res + buf[pos + 1] as int * 0x1_0000_0000_0000;
        res := res + buf[pos + 2] as int * 0x100_0000_0000;
        res := res + buf[pos + 3] as int * 0x1_0000_0000;
        pos := pos + 4;
      }
      if len >= 4 {
        res := res + buf[pos] as int * 0x100_0000;
        res := res + buf[pos + 1] as int * 0x1_0000;
        pos := pos + 2;
      }
      if len >= 2 {
        res := res + buf[pos] as int * 0x100;
        pos := pos + 1;
      }
      res := res + buf[pos] as int;
      pos := pos + 1;
      BigEndianSum(buf[p0..pos]);
    }

    method WriteNum(val: nat, len: nat) returns (r: Outcome<MarshalError>)
      requires IsWidth(len)
      modifies this`buf, this`pos, this`outOfBounds
      ensures r.Pass? <==> old(pos) + len <= |old(buf)|
      ensures r.Pass? ==> pos == old(pos) + len && buf == Splice(old(buf), old(pos), BigEndian(val, len))
                          && outOfBounds == old(outOfBounds)
      ensures r.Fail? ==> r.error == OutOfBounds && buf == old(buf) && pos == |buf| && outOfBounds
    {
      r := CheckLen(len);
      if r.Pass? {
        Int64ToTpm(val, len);
      }
    }

    method ReadNum(len: nat) returns (r: Result<nat, MarshalError>)
      requires IsWidth(len)
      modifies this`pos, this`outOfBounds
      ensures r.Success? <==> old(pos) + len <= |buf|
      ensures r.Success? ==> pos == old(pos) + len && r.value == FromBigEndian(buf[old(pos)..pos])
                             && outOfBounds == old(outOfBounds)
      ensures r.Failure? ==> r.error == OutOfBounds && pos == |buf| && outOfBounds
    {
      var ok := CheckLen(len);
      if ok.Fail? {
        return Failure(ok.error);
      }
      var v := Int64FromTpm(len);
      r := Success(v);
    }

    /** Overwrites a number at an earlier position and returns to the current one. */
    method WriteNumAtPos(val: nat, at: nat, len: nat) returns (r: Outcome<MarshalError>)
      requires IsWidth(len) && pos <= |buf|
      modifies this`buf, this`pos, this`outOfBounds
      ensures r.Pass? <==> at + len <= |old(buf)|
      ensures r.Pass? ==> pos == old(pos) && buf == Splice(old(buf), at, BigEndian(val, len)) && !outOfBounds
      ensures r.Fail? ==> r.error == OutOfBounds && buf == old(buf)
    {
      var origCurPos := pos;
      SetCurPos(at);
      r := WriteNum(val, len);
      if r.Pass? {
        SetCurPos(origCurPos);
      }
    }

    method WriteByte(val: byte) returns (r: Outcome<MarshalError>)
      modifies this`buf, this`pos, this`outOfBounds
      ensures r.Pass? <==> old(pos) + 1 <= |old(buf)|
      ensures r.Pass? ==> pos == old(pos) + 1 && buf == Splice(old(buf), old(pos), [val]) && outOfBounds == old(outOfBounds)
      ensures r.Fail? ==> r.error == OutOfBounds && buf == old(buf) && pos == |buf| && outOfBounds
    {
      r := CheckLen(1);
      if r.Pass? {
        Put(val);
      }
    }

    method ReadByte() returns (r: Result<byte, MarshalError>)
      modifies this`pos, this`outOfBounds
      ensures r.Success? <==> old(pos) + 1 <= |buf|
      ensures r.Success? ==> pos == old(pos) + 1 && r.value == buf[old(pos)] && outOfBounds == old(outOfBounds)
      ensures r.Failure? ==> r.error == OutOfBounds && pos == |buf| && outOfBounds
    {
      var ok := CheckLen(1);
      if ok.Fail? {
        return Failure(ok.error);
      }
      r := Success(buf[pos]);
      pos := pos + 1;
    }

    /** Writes bytes with no length prefix. */
    method WriteByteBuf(data: ByteVec) returns (r: Outcome<MarshalError>)
      requires pos <= |buf|
      modifies this`buf, this`pos, this`outOfBounds
      ensures r.Pass? <==> old(pos) + |data| <= |old(buf)|
      ensures r.Pass? ==> pos == old(pos) + |data| && buf == Splice(old(buf), old(pos), data)
                          && outOfBounds == old(outOfBounds)
      ensures r.Fail? ==> r.error == OutOfBounds && buf == old(buf) && pos == |buf| && outOfBounds
    {
      if data == [] {
        SpliceNothing(buf, pos);
        return Pass;
      }
      r := CheckLen(|data|);
      if r.Pass? {
        buf := Splice(buf, pos, data);
        pos := pos + |data|;
      }
    }

    method ReadByteBuf(size: nat) returns (r: Result<ByteVec, MarshalError>)
      modifies this`pos, this`outOfBounds
      ensures r.Success? <==> old(pos) + size <= |buf|
      ensures r.Success? ==> pos == old(pos) + size && r.value == buf[old(pos)..pos] && outOfBounds == old(outOfBounds)
      ensures r.Failure? ==> r.error == OutOfBounds && pos == |buf| && outOfBounds
    {
      var ok := CheckLen(size);
      if ok.Fail? {
        return Failure(ok.error);
      }
      r := Success(buf[pos..pos + size]);
      pos := pos + size;
    }

    /** Length prefix and bytes; the length is cut to 32 bits and then to the prefix width. */
    method WriteSizedByteBuf(data: ByteVec, sizeLen: nat) returns (r: Outcome<MarshalError>)
      requires IsWidth(sizeLen) && pos <= |buf|
      modifies this`buf, this`pos, this`outOfBounds
      ensures r.Pass? <==> old(pos) + sizeLen + |data| <= |old(buf)|
      ensures r.Pass? ==> pos == old(pos) + sizeLen + |data| && outOfBounds == old(outOfBounds)
                          && buf == Splice(old(buf), old(pos), BigEndian(|data| % 0x1_0000_0000, sizeLen) + data)
      ensures r.Fail? ==> r.error == OutOfBounds && |buf| == |old(buf)| && pos == |buf| && outOfBounds
    {
      r := WriteNum(|data| % 0x1_0000_0000, sizeLen);
      if r.Fail? {
        return;
      }
      r := WriteByteBuf(data);
      if r.Pass? {
        SpliceTwice(old(buf), old(pos), BigEndian(|data| % 0x1_0000_0000, sizeLen), data);
      }
    }

    /** Reads a length prefix and that many bytes. The length itself is not checked. */
    method ReadSizedByteBuf(sizeLen: nat) returns (r: Result<ByteVec, MarshalError>)
      requires IsWidth(sizeLen)
      modifies this`pos, this`outOfBounds
      ensures r == ReadSizedBuf(buf, old(pos), sizeLen)
      ensures r.Success? ==> pos == old(pos) + sizeLen + |r.value| && outOfBounds == old(outOfBounds)
    {
      var len := ReadNum(sizeLen);
      if len.Failure? {
        return Failure(len.error);
      }
      var start := pos;
      pos := pos + len.value;
      if pos > |buf| {
        return Failure(OutsideBuffer);
      }
      r := Success(buf[start..pos]);
    }
  }

  function ReadSizedBuf(b: ByteVec, p: nat, sizeLen: nat): (r: Result<ByteVec, MarshalError>)
    ensures r.Success? ==> p + sizeLen + |r.value| <= |b|
                           && r.value == b[p + sizeLen..p + sizeLen + |r.value|]
  {
    if p + sizeLen > |b| then Failure(OutOfBounds) else
    var len := FromBigEndian(b[p..p + sizeLen]);
    if p + sizeLen + len > |b| then Failure(OutsideBuffer)
    else Success(b[p + sizeLen..p + sizeLen + len])
  }

  /** The two low bytes selected by shifting. */
  function LowPair(val: nat): (r: ByteVec)
    ensures |r| == 2
  {
    [((val / 0x100) % 0x100) as byte] + [(val % 0x100) as byte]
  }

  lemma LowPairIsBigEndian(val: nat)
    ensures BigEndian(val, 1) == [(val % 0x100) as byte]
    ensures BigEndian(val, 2) == LowPair(val)
  {
    assert BigEndian(val / 0x100, 0) == [];
    LastTwo(val, 2);
  }

  lemma QuadIsBigEndian(val: nat)
    ensures BigEndian(val, 4) == LowPair(val / 0x1_0000) + LowPair(val)
  {
    LastTwo(val, 4);
    LowPairIsBigEndian(val / 0x1_0000);
  }

  lemma HighQuad(val: nat)
    ensures [] + LowPair(val / 0x1_0000) + LowPair(val) == BigEndian(val, 4)
  {
    hide LowPair, BigEndian;
    QuadIsBigEndian(val);
  }

  lemma OctIsBigEndian(val: nat)
    ensures BigEndian(val, 8) == BigEndian(val / 0x1_0000_0000, 4) + LowPair(val / 0x1_0000) + LowPair(val)
  {
    LastTwo(val, 8);
    LastTwo(val / 0x1_0000, 6);
    assert val / 0x1_0000 / 0x1_0000 == val / 0x1_0000_0000;
  }

  lemma ShiftsAreBigEndian(val: nat, len: nat)
    requires IsWidth(len)
    ensures BigEndian(val, len)
         == if len == 1 then [(val % 0x100) as byte]
            else if len == 2 then [] + LowPair(val)
            else if len == 4 then [] + LowPair(val / 0x1_0000) + LowPair(val)
            else BigEndian(val / 0x1_0000_0000, 4) + LowPair(val / 0x1_0000) + LowPair(val)
  {
    if len <= 2 {
      LowPairIsBigEndian(val);
    } else if len == 4 {
      QuadIsBigEndian(val);
    } else {
      OctIsBigEndian(val);
    }
  }

  lemma LastTwo(val: nat, len: nat)
    requires len >= 2
    ensures BigEndian(val, len)
         == BigEndian(val / 0x1_0000, len - 2) + [((val / 0x100) % 0x100) as byte] + [(val % 0x100) as byte]
  {
    assert val / 0x100 / 0x100 == val / 0x1_0000;
    assert BigEndian(val, len) == BigEndian(val / 0x100, len - 1) + [(val % 0x100) as byte];
  }

  /** The sum that Int64FromTpm accumulates. */
  function SumOf(bs: ByteVec): nat
    requires IsWidth(|bs|)
  {
    if |bs| == 1 then bs[0] as int
    else if |bs| == 2 then bs[0] as int * 0x100 + bs[1] as int
    else if |bs| == 4 then
      bs[0] as int * 0x100_0000 + bs[1] as int * 0x1_0000 + bs[2] as int * 0x100 + bs[3] as int
    else
      bs[0] as int * 0x100_0000_0000_0000 + bs[1] as int * 0x1_0000_0000_0000
      + bs[2] as int * 0x100_0000_0000 + bs[3] as int * 0x1_0000_0000
      + bs[4] as int * 0x100_0000 + bs[5] as int * 0x1_0000 + bs[6] as int * 0x100 + bs[7] as int
  }

  lemma BigEndianSum(bs: ByteVec)
    requires IsWidth(|bs|)
    ensures FromBigEndian(bs) == SumOf(bs)
  {
    if |bs| == 2 {
      assert bs[..1][..0] == [];
    } else if |bs| == 4 {
      BigEndianSum(bs[..2]);
      DropTwo(bs);
    } else if |bs| == 8 {
      BigEndianSum(bs[..4]);
      DropTwo(bs[..6]);
      assert bs[..6][..4] == bs[..4];
      DropTwo(bs);
    }
  }

  lemma DropTwo(bs: ByteVec)
    requires |bs| >= 2
    ensures FromBigEndian(bs)
         == FromBigEndian(bs[..|bs| - 2]) * 0x1_0000 + bs[|bs| - 2] as int * 0x100 + bs[|bs| - 1] as int
  {
    var a := bs[..|bs| - 1];
    assert a[..|a| - 1] == bs[..|bs| - 2];
  }
}
