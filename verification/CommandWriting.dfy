/** Appending to an output buffer: the stretch that was written so far grows by what is written. */
module CommandWriting {
  import opened Bytes
  import opened Wrappers
  import opened TpmBuffers
  import opened CommandFrames

  predicate Writing(b: TpmBuffer)
    reads b
  {
    b.pos <= |b.buf| < 0x1_0000_0000 && !b.outOfBounds
  }

  /** What was written so far. */
  ghost function Written(b: TpmBuffer): ByteVec
    requires Writing(b)
    reads b
  {
    b.buf[..b.pos]
  }

  /** The buffer after `data` was appended, or the exception for lack of room. */
  twostate predicate Appended(b: TpmBuffer, data: ByteVec, new r: Outcome<MarshalError>)
    requires old(Writing(b))
    reads b
  {
    && |b.buf| == |old(b.buf)|
    && (r.Pass? <==> |old(Written(b))| + |data| <= |b.buf|)
    && (r.Pass? ==> Writing(b) && Written(b) == old(Written(b)) + data)
    && (r.Fail? ==> r.error == OutOfBounds)
  }

  lemma SpliceAppends(b: ByteVec, p: nat, data: ByteVec)
    requires p + |data| <= |b|
    ensures Splice(b, p, data)[..p + |data|] == b[..p] + data
  {}

  method AppendNum(b: TpmBuffer, val: nat, len: nat) returns (r: Outcome<MarshalError>)
    requires Writing(b) && IsWidth(len)
    modifies b`buf, b`pos, b`outOfBounds
    ensures Appended(b, BigEndian(val, len), r)
  {
    r := b.WriteNum(val, len);
    if r.Pass? {
      SpliceAppends(old(b.buf), old(b.pos), BigEndian(val, len));
    }
  }

  method AppendByte(b: TpmBuffer, val: byte) returns (r: Outcome<MarshalError>)
    requires Writing(b)
    modifies b`buf, b`pos, b`outOfBounds
    ensures Appended(b, [val], r)
  {
    r := b.WriteByte(val);
    if r.Pass? {
      SpliceAppends(old(b.buf), old(b.pos), [val]);
    }
  }

  method AppendBytes(b: TpmBuffer, data: ByteVec) returns (r: Outcome<MarshalError>)
    requires Writing(b)
    modifies b`buf, b`pos, b`outOfBounds
    ensures Appended(b, data, r)
  {
    r := b.WriteByteBuf(data);
    if r.Pass? {
      SpliceAppends(old(b.buf), old(b.pos), data);
    }
  }

  /** A byte buffer with a two-byte length in front. */
  method AppendSized(b: TpmBuffer, data: ByteVec) returns (r: Outcome<MarshalError>)
    requires Writing(b)
    modifies b`buf, b`pos, b`outOfBounds
    ensures Appended(b, Sized(data), r)
  {
    hide BigEndian;
    r := b.WriteSizedByteBuf(data, 2);
    if r.Pass? {
      SpliceAppends(old(b.buf), old(b.pos), Sized(data));
    }
  }

  /** TPMS_AUTH_COMMAND::toTpm. */
  method MarshalAuth(b: TpmBuffer, a: AuthCommand) returns (r: Outcome<MarshalError>)
    requires Writing(b)
    modifies b`buf, b`pos, b`outOfBounds
    ensures Appended(b, EncodeAuth(a), r)
  {
    hide BigEndian, Sized;
    ghost var w := Written(b);
    r := AppendNum(b, a.handle, 4);
    if r.Fail? {
      return;
    }
    r := AppendSized(b, a.nonce);
    if r.Fail? {
      return;
    }
    r := AppendByte(b, a.attributes);
    if r.Fail? {
      return;
    }
    r := AppendSized(b, a.hmac);
    if r.Pass? {
      Regroup(w, BigEndian(a.handle, 4), Sized(a.nonce), [a.attributes], Sized(a.hmac));
    }
  }

  lemma Regroup(w: ByteVec, x: ByteVec, y: ByteVec, z: ByteVec, u: ByteVec)
    ensures w + x + y + z + u == w + (x + (y + (z + u)))
  {}

  /** Overwrites four bytes that were written before. */
  method Patch(b: TpmBuffer, val: nat, at: nat)
    requires Writing(b) && at + 4 <= b.pos
    modifies b`buf, b`pos, b`outOfBounds
    ensures Writing(b) && |b.buf| == |old(b.buf)| && |old(Written(b))| == b.pos
    ensures Written(b) == Splice(old(Written(b)), at, BigEndian(val, 4))
  {
    hide BigEndian;
    var r := b.WriteNumAtPos(val, at, 4);
    assert r.Pass?;
    SpliceFront(old(b.buf), old(b.pos), at, BigEndian(val, 4));
  }

  lemma SpliceFront(b: ByteVec, end: nat, at: nat, data: ByteVec)
    requires at + |data| <= end <= |b|
    ensures Splice(b, at, data)[..end] == Splice(b[..end], at, data)
  {}

  lemma SpliceMiddle(w: ByteVec, x: ByteVec, y: ByteVec, z: ByteVec)
    requires |x| == |y|
    ensures Splice(w + x + z, |w|, y) == w + (y + z)
  {
    var b := w + x + z;
    assert b[..|w|] == w && b[|w| + |y|..] == z;
  }
}
