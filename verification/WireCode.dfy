/** The toTpm and initFromTpm traversals over a TpmBuffer. */
module WireCode {
  import opened Bytes
  import opened Sequences
  import opened Wrappers
  import opened TpmBuffers
  import opened WireFormat

  /** The number of bytes a value takes; a write succeeds exactly when they fit. */
  function Size(s: Shape, v: Val, last: bool): nat
    requires Typed(s, v, last)
  {
    |Enc(s, v, last)|
  }

  /** What every writer promises about the buffer. */
  twostate predicate Wrote(b: TpmBuffer, enc: ByteVec, new r: Outcome<MarshalError>)
    reads b
  {
    && |b.buf| == |old(b.buf)| && b.sizedStructSizes == old(b.sizedStructSizes)
    && (r.Pass? <==> old(b.pos) + |enc| <= |old(b.buf)|)
    && (r.Pass? ==> b.pos == old(b.pos) + |enc| && b.buf == Splice(old(b.buf), old(b.pos), enc) && !b.outOfBounds)
    && (r.Fail? ==> b.pos == |b.buf| && b.outOfBounds)
  }

  method WriteVal(b: TpmBuffer, s: Shape, v: Val, last: bool) returns (r: Outcome<MarshalError>)
    requires Typed(s, v, last) && b.Ready()
    modifies b
    ensures Wrote(b, Enc(s, v, last), r)
    decreases v, 1
  {
    hide EncList, EncElems, EncVals, BigEndian;
    match s {
      case IntS(len) => r := b.WriteNum(v.n, len);
      case BufS(sizeLen) => r := b.WriteSizedByteBuf(v.data, sizeLen);
      case StructS(fs) => r := WriteList(b, fs, v.vals, false);
      case SizedS(fs) => r := WriteSizedObj(b, fs, v.vals);
      case ObjArrS(e) => r := WriteObjArr(b, e, v.elems);
      case ValArrS(size) => r := WriteValArr(b, size, v.ns);
      case RestS => r := b.WriteByteBuf(v.rest);
    }
  }

  /** The fields of a structure, in order. */
  method WriteList(b: TpmBuffer, ss: seq<Shape>, vs: seq<Val>, sized: bool) returns (r: Outcome<MarshalError>)
    requires TypedList(ss, vs, sized) && b.Ready()
    modifies b
    ensures Wrote(b, EncList(ss, vs, sized), r)
    decreases vs, 0
  {
    hide Enc, Typed;
    if vs == [] {
      SpliceNothing(b.buf, b.pos);
      return Pass;
    }
    ghost var h, t := Enc(ss[0], vs[0], sized && |ss| == 1), EncList(ss[1..], vs[1..], sized);
    r := WriteVal(b, ss[0], vs[0], sized && |ss| == 1);
    if r.Pass? {
      r := WriteList(b, ss[1..], vs[1..], sized);
      if r.Pass? {
        SpliceTwice(old(b.buf), old(b.pos), h, t);
      }
    }
  }

  /** TpmBuffer::writeSizedObj: reserves the length, writes the object, goes back to patch it. */
  method WriteSizedObj(b: TpmBuffer, fs: seq<Shape>, vs: seq<Val>) returns (r: Outcome<MarshalError>)
    requires TypedList(fs, vs, true) && b.Ready()
    modifies b
    ensures Wrote(b, BigEndian(|EncList(fs, vs, true)|, 2) + EncList(fs, vs, true), r)
    decreases vs, 1
  {
    hide EncList, TypedList, BigEndian;
    ghost var body := EncList(fs, vs, true);
    ghost var b0 := b.buf;
    r := b.CheckLen(2);
    if r.Fail? {
      return;
    }
    var sizePos := b.pos;
    b.pos := b.pos + 2;
    r := WriteList(b, fs, vs, true);
    if r.Fail? {
      return;
    }
    var objLen := b.pos - (sizePos + 2);
    b.pos := sizePos;
    BigEndianWraps(objLen);
    r := b.WriteNum(objLen % 0x1_0000, 2);
    b.pos := b.pos + objLen;
    SpliceBefore(b0, sizePos, BigEndian(objLen, 2), body);
  }

  /** TpmBuffer::writeObjArr. */
  method WriteObjArr(b: TpmBuffer, e: Shape, vs: seq<Val>) returns (r: Outcome<MarshalError>)
    requires TypedElems(e, vs) && b.Ready()
    modifies b
    ensures Wrote(b, BigEndian(|vs|, 4) + EncElems(e, vs), r)
    decreases vs, 1
  {
    hide BigEndian, Enc, Typed, TypedElems, EncElems, Splice;
    ghost var b0, p0, all := b.buf, b.pos, BigEndian(|vs|, 4) + EncElems(e, vs);
    ghost var done := BigEndian(|vs|, 4);
    r := b.WriteNum(|vs|, 4);
    if r.Fail? {
      return;
    }
    var i := 0;
    assert vs[0..] == vs;
    while i < |vs|
      invariant i <= |vs| && TypedElems(e, vs[i..]) && |b.buf| == |b0| && b.sizedStructSizes == old(b.sizedStructSizes)
      invariant done + EncElems(e, vs[i..]) == all
      invariant p0 + |done| <= |b0| && b.pos == p0 + |done| && b.buf == Splice(b0, p0, done) && !b.outOfBounds
    {
      ElemsStep(e, vs, i, done);
      ghost var h := Enc(e, vs[i], false);
      r := WriteVal(b, e, vs[i], false);
      if r.Fail? {
        return;
      }
      SpliceTwice(b0, p0, done, h);
      done := done + h;
      i := i + 1;
    }
    NoElems(e, vs[i..]);
    assert done + [] == done;
    r := Pass;
  }

  /** The next element of an array, behind what was written. */
  lemma ElemsStep(e: Shape, vs: seq<Val>, i: nat, done: ByteVec)
    requires i < |vs| && TypedElems(e, vs[i..])
    ensures Typed(e, vs[i], false) && TypedElems(e, vs[i + 1..])
    ensures done + EncElems(e, vs[i..]) == done + Enc(e, vs[i], false) + EncElems(e, vs[i + 1..])
  {
    hide Enc, Typed;
    assert vs[i..][1..] == vs[i + 1..];
    var h, t := Enc(e, vs[i], false), EncElems(e, vs[i + 1..]);
    assert done + (h + t) == done + h + t;
  }

  lemma NoElems(e: Shape, vs: seq<Val>)
    requires vs == []
    ensures TypedElems(e, vs) && EncElems(e, vs) == []
  {}

  /** TpmBuffer::writeValArr. */
  method WriteValArr(b: TpmBuffer, size: nat, ns: seq<nat>) returns (r: Outcome<MarshalError>)
    requires IsWidth(size) && b.Ready()
    modifies b
    ensures Wrote(b, BigEndian(|ns|, 4) + EncVals(size, ns), r)
  {
    hide BigEndian;
    ghost var b0, p0 := b.buf, b.pos;
    ghost var done := BigEndian(|ns|, 4);
    r := b.WriteNum(|ns|, 4);
    if r.Fail? {
      return;
    }
    var i := 0;
    while i < |ns|
      invariant i <= |ns| && |b.buf| == |b0| && b.sizedStructSizes == old(b.sizedStructSizes)
      invariant done + EncVals(size, ns[i..]) == BigEndian(|ns|, 4) + EncVals(size, ns)
      invariant p0 + |done| <= |b0| && b.pos == p0 + |done| && b.buf == Splice(b0, p0, done) && !b.outOfBounds
    {
      assert ns[i..][1..] == ns[i + 1..];
      ghost var h, t := BigEndian(ns[i], size), EncVals(size, ns[i + 1..]);
      assert done + (h + t) == (done + h) + t;
      r := b.WriteNum(ns[i], size);
      if r.Fail? {
        return;
      }
      SpliceTwice(b0, p0, done, h);
      done := done + h;
      i := i + 1;
    }
    assert done + [] == done;
    r := Pass;
  }

  // ---------- reading ----------

  /** The top of the stack of sized structures being read. */
  function Top(stack: seq<SizedStructInfo>): Option<SizedStructInfo> {
    if stack == [] then None else Some(stack[|stack| - 1])
  }

  /** What every reader promises: nothing but the cursor moves, and the stack is balanced again
      after a successful read. */
  twostate predicate ReadTo<T>(b: TpmBuffer, expected: Result<(T, nat), MarshalError>, new r: Result<T, MarshalError>)
    reads b
  {
    && b.buf == old(b.buf)
    && (r.Success? <==> expected.Success?)
    && (r.Success? ==>
          && r.value == expected.value.0 && b.pos == expected.value.1
          && !b.outOfBounds && b.sizedStructSizes == old(b.sizedStructSizes))
    && (r.Failure? ==> expected.error == r.error)
  }

  method ReadVal(b: TpmBuffer, s: Shape) returns (r: Result<Val, MarshalError>)
    requires WellSized(s) && !b.outOfBounds
    modifies b
    ensures ReadTo(b, Read(s, b.buf, old(b.pos), Top(old(b.sizedStructSizes))), r)
    decreases s, 1
  {
    hide ReadList, ReadElems, ReadVals, WellSizedList, FromBigEndian;
    match s {
      case IntS(len) =>
        var n := b.ReadNum(len);
        r := if n.Failure? then Failure(n.error) else Success(IntV(n.value));
      case BufS(sizeLen) =>
        var d := b.ReadSizedByteBuf(sizeLen);
        r := if d.Failure? then Failure(d.error) else Success(BufV(d.value));
      case StructS(fs) =>
        var vs := ReadFields(b, fs);
        r := if vs.Failure? then Failure(vs.error) else Success(ObjV(vs.value));
      case SizedS(fs) =>
        r := ReadSizedObj(b, fs);
      case ObjArrS(e) =>
        r := ReadObjArr(b, e);
      case ValArrS(size) =>
        r := ReadValArr(b, size);
      case RestS =>
        r := ReadRest(b);
    }
  }

  /** readByteBuf(getCurStuctRemainingSize()). */
  method ReadRest(b: TpmBuffer) returns (r: Result<Val, MarshalError>)
    requires !b.outOfBounds
    modifies b
    ensures ReadTo(b, Read(RestS, b.buf, old(b.pos), Top(old(b.sizedStructSizes))), r)
  {
    if b.sizedStructSizes == [] {
      return Failure(OutsideBuffer);
    }
    var ssi := b.sizedStructSizes[|b.sizedStructSizes| - 1];
    var remaining := ssi.size - (b.pos - ssi.startPos);
    if remaining < 0 {
      return Failure(OutsideBuffer);
    }
    var d := b.ReadByteBuf(remaining);
    r := if d.Failure? then Failure(d.error) else Success(RestV(d.value));
  }

  method ReadFields(b: TpmBuffer, ss: seq<Shape>) returns (r: Result<seq<Val>, MarshalError>)
    requires WellSizedList(ss) && !b.outOfBounds
    modifies b
    ensures ReadTo(b, ReadList(ss, b.buf, old(b.pos), Top(old(b.sizedStructSizes))), r)
    decreases ss, 0
  {
    hide Read, WellSized;
    if ss == [] {
      return Success([]);
    }
    var h := ReadVal(b, ss[0]);
    if h.Failure? {
      return Failure(h.error);
    }
    var t := ReadFields(b, ss[1..]);
    r := if t.Failure? then t else Success([h.value] + t.value);
  }

  /** TpmBuffer::readSizedObj. */
  method ReadSizedObj(b: TpmBuffer, fs: seq<Shape>) returns (r: Result<Val, MarshalError>)
    requires WellSizedList(fs) && !b.outOfBounds
    modifies b
    ensures ReadTo(b, Read(SizedS(fs), b.buf, old(b.pos), Top(old(b.sizedStructSizes))), r)
    decreases fs, 1
  {
    hide ReadList, WellSizedList, Defaults;
    var size := b.ReadNum(2);
    if size.Failure? {
      return Failure(size.error);
    }
    if size.value == 0 {
      return Success(Default(SizedS(fs)));
    }
    b.sizedStructSizes := b.sizedStructSizes + [SizedStructInfo(b.pos, size.value)];
    var vs := ReadFields(b, fs);
    if vs.Failure? {
      return Failure(vs.error);
    }
    b.sizedStructSizes := b.sizedStructSizes[..|b.sizedStructSizes| - 1];
    r := Success(ObjV(vs.value));
  }

  /** Values already read in front of what is still to be read. */
  function Prepend<T>(done: seq<T>, rest: Result<(seq<T>, nat), MarshalError>): Result<(seq<T>, nat), MarshalError> {
    if rest.Failure? then rest else Success((done + rest.value.0, rest.value.1))
  }

  lemma PrependNothing<T>(rest: Result<(seq<T>, nat), MarshalError>)
    ensures Prepend([], rest) == rest
  {
    if rest.Success? {
      assert [] + rest.value.0 == rest.value.0;
    }
  }

  lemma PrependOne<T>(done: seq<T>, x: T, rest: Result<(seq<T>, nat), MarshalError>)
    ensures Prepend(done, Prepend([x], rest)) == Prepend(done + [x], rest)
  {
    if rest.Success? {
      assert done + ([x] + rest.value.0) == (done + [x]) + rest.value.0;
    }
  }

  /** TpmBuffer::readObjArr. */
  method ReadObjArr(b: TpmBuffer, e: Shape) returns (r: Result<Val, MarshalError>)
    requires WellSized(e) && !b.outOfBounds
    modifies b
    ensures ReadTo(b, Read(ObjArrS(e), b.buf, old(b.pos), Top(old(b.sizedStructSizes))), r)
    decreases e, 2
  {
    hide Read, WellSized;
    ghost var frame := Top(b.sizedStructSizes);
    ReadArrUnfold(e, b.buf, b.pos, frame);
    var len := b.ReadNum(4);
    if len.Failure? {
      return Failure(len.error);
    }
    ghost var whole := ReadElems(e, len.value, b.buf, b.pos, frame);
    PrependNothing(whole);
    var arr := [];
    var i := 0;
    while i < len.value
      invariant i <= len.value && !b.outOfBounds
      invariant b.buf == old(b.buf) && b.sizedStructSizes == old(b.sizedStructSizes)
      invariant whole == Prepend(arr, ReadElems(e, len.value - i, b.buf, b.pos, frame))
    {
      var h := ReadVal(b, e);
      if h.Failure? {
        return Failure(h.error);
      }
      PrependOne(arr, h.value, ReadElems(e, len.value - i - 1, b.buf, b.pos, frame));
      arr := arr + [h.value];
      i := i + 1;
    }
    assert arr + [] == arr;
    r := Success(ArrV(arr));
  }

  /** The array case of Read, spelled out. */
  lemma ReadArrUnfold(e: Shape, b: ByteVec, p: nat, frame: Option<SizedStructInfo>)
    requires WellSized(e)
    ensures Read(ObjArrS(e), b, p, frame)
         == if p + 4 > |b| then Failure(OutOfBounds) else
            var r := ReadElems(e, FromBigEndian(b[p..p + 4]), b, p + 4, frame);
            if r.Failure? then Failure(r.error) else Success((ArrV(r.value.0), r.value.1))
  {}

  /** TpmBuffer::readValArr. */
  method ReadValArr(b: TpmBuffer, size: nat) returns (r: Result<Val, MarshalError>)
    requires IsWidth(size) && !b.outOfBounds
    modifies b
    ensures ReadTo(b, Read(ValArrS(size), b.buf, old(b.pos), Top(old(b.sizedStructSizes))), r)
  {
    hide Read, ReadVals, Prepend, FromBigEndian;
    ReadValArrUnfold(size, b.buf, b.pos, Top(b.sizedStructSizes));
    var len := b.ReadNum(4);
    if len.Failure? {
      return Failure(len.error);
    }
    ghost var whole := ReadVals(size, len.value, b.buf, b.pos);
    PrependNothing(whole);
    var arr: seq<nat> := [];
    var i := 0;
    while i < len.value
      invariant i <= len.value && !b.outOfBounds
      invariant b.buf == old(b.buf) && b.sizedStructSizes == old(b.sizedStructSizes)
      invariant whole == Prepend(arr, ReadVals(size, len.value - i, b.buf, b.pos))
    {
      ReadValsUnfold(size, len.value - i, b.buf, b.pos);
      PrependFailure(arr, ReadVals(size, len.value - i, b.buf, b.pos));
      var h := b.ReadNum(size);
      if h.Failure? {
        return Failure(h.error);
      }
      var val: nat := h.value % 0x1_0000_0000;
      PrependOne<nat>(arr, val, ReadVals(size, len.value - i - 1, b.buf, b.pos));
      arr := arr + [val];
      i := i + 1;
    }
    ReadValsEnd(size, b.buf, b.pos, arr);
    r := Success(ValsV(arr));
  }

  /** ReadVals by its first element. */
  lemma ReadValsUnfold(size: nat, n: nat, b: ByteVec, p: nat)
    requires n > 0
    ensures ReadVals(size, n, b, p)
         == if p + size > |b| then Failure(OutOfBounds)
            else Prepend<nat>([FromBigEndian(b[p..p + size]) % 0x1_0000_0000], ReadVals(size, n - 1, b, p + size))
  {
    hide FromBigEndian;
  }

  lemma ReadValsEnd(size: nat, b: ByteVec, p: nat, done: seq<nat>)
    ensures Prepend(done, ReadVals(size, 0, b, p)) == Success((done, p))
  {
    assert done + [] == done;
  }

  lemma PrependFailure<T>(done: seq<T>, rest: Result<(seq<T>, nat), MarshalError>)
    ensures rest.Failure? ==> Prepend(done, rest) == rest
  {}

  /** The number array case of Read, spelled out. */
  lemma ReadValArrUnfold(size: nat, b: ByteVec, p: nat, frame: Option<SizedStructInfo>)
    requires IsWidth(size)
    ensures Read(ValArrS(size), b, p, frame)
         == if p + 4 > |b| then Failure(OutOfBounds) else
            match ReadVals(size, FromBigEndian(b[p..p + 4]), b, p + 4)
            case Failure(e) => Failure(e)
            case Success(x) => Success((ValsV(x.0), x.1))
  {
    hide ReadVals, FromBigEndian;
  }

  /** Writing any nested value and reading it from the trimmed buffer: the same value, the same
      final position, the stack empty again. */
  method RoundTrip(s: Shape, v: Val, capacity: nat)
    returns (w: Outcome<MarshalError>, wrote: nat, r: Result<Val, MarshalError>, end: nat, open: nat)
    requires WellSized(s) && !s.RestS? && Typed(s, v, false) && Fits(s, v, false)
    ensures w.Pass? <==> Size(s, v, false) <= capacity
    ensures w.Pass? ==> r == Success(v) && end == wrote == Size(s, v, false) && open == 0
  {
    hide Enc, Read, Typed, Fits, WellSized;
    r, end, open := Failure(OutOfBounds), 0, 0;
    var out := new TpmBuffer.Output(capacity);
    w := WriteVal(out, s, v, false);
    wrote := out.pos;
    if w.Pass? {
      ghost var enc := Enc(s, v, false);
      var bytes := out.Trim();
      assert bytes == enc;
      var in' := new TpmBuffer.Input(bytes);
      assert At(bytes, 0, enc);
      ReadBack(s, v, false, bytes, 0, None);
      r := ReadVal(in', s);
      end, open := in'.pos, |in'.sizedStructSizes|;
    }
  }
}
