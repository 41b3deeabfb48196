/** The wire representation of nested TPM structures: what the TpmBuffer writers produce, what
    the readers make of any byte string, and when the second undoes the first. */
module WireFormat {
  import opened Bytes
  import opened Sequences
  import opened Wrappers
  import opened TpmBuffers

  /** The static type that drives a toTpm / initFromTpm pair. */
  datatype Shape =
    | IntS(len: nat)                    // writeNum
    | BufS(sizeLen: nat)                // writeSizedByteBuf
    | StructS(fields: seq<Shape>)       // a nested structure, marshaled in place
    | SizedS(sizedFields: seq<Shape>)   // writeSizedObj
    | ObjArrS(elem: Shape)              // writeObjArr
    | ValArrS(valSize: nat)             // writeValArr
    | RestS                             // bytes up to the end of the enclosing sized structure

  datatype Val =
    | IntV(n: nat)
    | BufV(data: ByteVec)
    | ObjV(vals: seq<Val>)
    | ArrV(elems: seq<Val>)
    | ValsV(ns: seq<nat>)
    | RestV(rest: ByteVec)

  // ---------- values of a shape ----------

  /** What the C++ types guarantee of a value. Only the last field of a sized structure may
      take the rest of it. */
  predicate Typed(s: Shape, v: Val, last: bool)
    decreases v
  {
    match s
    case IntS(len) => v.IntV? && IsWidth(len) && v.n < Pow256(len)
    case BufS(sizeLen) => v.BufV? && IsWidth(sizeLen)
    case StructS(fs) => v.ObjV? && TypedList(fs, v.vals, false)
    case SizedS(fs) => v.ObjV? && TypedList(fs, v.vals, true)
    case ObjArrS(e) => v.ArrV? && TypedElems(e, v.elems)
    case ValArrS(size) => v.ValsV? && IsWidth(size) && forall i | 0 <= i < |v.ns| :: v.ns[i] < Pow256(size)
    case RestS => v.RestV? && last
  }

  predicate TypedList(ss: seq<Shape>, vs: seq<Val>, sized: bool)
    decreases vs
  {
    |ss| == |vs| && (vs == [] || (Typed(ss[0], vs[0], sized && |ss| == 1) && TypedList(ss[1..], vs[1..], sized)))
  }

  predicate TypedElems(e: Shape, vs: seq<Val>)
    decreases vs
  {
    vs == [] || (Typed(e, vs[0], false) && TypedElems(e, vs[1..]))
  }

  // ---------- the written bytes ----------

  function Enc(s: Shape, v: Val, last: bool): ByteVec
    requires Typed(s, v, last)
    decreases v
  {
    match s
    case IntS(len) => BigEndian(v.n, len)
    case BufS(sizeLen) => BigEndian(|v.data| % 0x1_0000_0000, sizeLen) + v.data
    case StructS(fs) => EncList(fs, v.vals, false)
    case SizedS(fs) => BigEndian(|EncList(fs, v.vals, true)|, 2) + EncList(fs, v.vals, true)
    case ObjArrS(e) => BigEndian(|v.elems|, 4) + EncElems(e, v.elems)
    case ValArrS(size) => BigEndian(|v.ns|, 4) + EncVals(size, v.ns)
    case RestS => v.rest
  }

  function EncList(ss: seq<Shape>, vs: seq<Val>, sized: bool): ByteVec
    requires TypedList(ss, vs, sized)
    decreases vs
  {
    if vs == [] then [] else Enc(ss[0], vs[0], sized && |ss| == 1) + EncList(ss[1..], vs[1..], sized)
  }

  function EncElems(e: Shape, vs: seq<Val>): ByteVec
    requires TypedElems(e, vs)
    decreases vs
  {
    if vs == [] then [] else Enc(e, vs[0], false) + EncElems(e, vs[1..])
  }

  function EncVals(size: nat, ns: seq<nat>): ByteVec {
    if ns == [] then [] else BigEndian(ns[0], size) + EncVals(size, ns[1..])
  }

  // ---------- the readers ----------

  type ReadResult = Result<(Val, nat), MarshalError>

  /** Reads a value of shape `s` at position `p`; `frame` is the top of the sized-structure stack. */
  function Read(s: Shape, b: ByteVec, p: nat, frame: Option<SizedStructInfo>): ReadResult
    requires WellSized(s)
    decreases s, 0
  {
    match s
    case IntS(len) =>
      if p + len > |b| then Failure(OutOfBounds) else Success((IntV(FromBigEndian(b[p..p + len])), p + len))
    case BufS(sizeLen) =>
      var d :- ReadSizedBuf(b, p, sizeLen);
      Success((BufV(d), p + sizeLen + |d|))
    case StructS(fs) =>
      var r :- ReadList(fs, b, p, frame);
      Success((ObjV(r.0), r.1))
    case SizedS(fs) =>
      if p + 2 > |b| then Failure(OutOfBounds) else
      var size := FromBigEndian(b[p..p + 2]);
      if size == 0 then Success((Default(s), p + 2)) else
      var r :- ReadList(fs, b, p + 2, Some(SizedStructInfo(p + 2, size)));
      Success((ObjV(r.0), r.1))
    case ObjArrS(e) =>
      if p + 4 > |b| then Failure(OutOfBounds) else
      var r :- ReadElems(e, FromBigEndian(b[p..p + 4]), b, p + 4, frame);
      Success((ArrV(r.0), r.1))
    case ValArrS(size) =>
      if p + 4 > |b| then Failure(OutOfBounds) else
      var r :- ReadVals(size, FromBigEndian(b[p..p + 4]), b, p + 4);
      Success((ValsV(r.0), r.1))
    case RestS =>
      if frame.None? || frame.value.startPos + frame.value.size < p then Failure(OutsideBuffer) else
      var end := frame.value.startPos + frame.value.size;
      if end > |b| then Failure(OutOfBounds) else Success((RestV(b[p..end]), end))
  }

  function ReadList(ss: seq<Shape>, b: ByteVec, p: nat, frame: Option<SizedStructInfo>):
    Result<(seq<Val>, nat), MarshalError>
    requires WellSizedList(ss)
    decreases ss, 0
  {
    if ss == [] then Success(([], p)) else
    var h :- Read(ss[0], b, p, frame);
    var t :- ReadList(ss[1..], b, h.1, frame);
    Success(([h.0] + t.0, t.1))
  }

  function ReadElems(e: Shape, n: nat, b: ByteVec, p: nat, frame: Option<SizedStructInfo>):
    Result<(seq<Val>, nat), MarshalError>
    requires WellSized(e)
    decreases e, n + 1
  {
    if n == 0 then Success(([], p)) else
    var h :- Read(e, b, p, frame);
    var t :- ReadElems(e, n - 1, b, h.1, frame);
    Success(([h.0] + t.0, t.1))
  }

  /** Array elements are cut to 32 bits on the way in. */
  function ReadVals(size: nat, n: nat, b: ByteVec, p: nat): Result<(seq<nat>, nat), MarshalError>
    decreases n
  {
    if n == 0 then Success(([], p)) else
    if p + size > |b| then Failure(OutOfBounds) else
    var t :- ReadVals(size, n - 1, b, p + size);
    Success(([FromBigEndian(b[p..p + size]) % 0x1_0000_0000] + t.0, t.1))
  }

  /** The value a structure has before it is read: empty fields, zero numbers. */
  function Default(s: Shape): Val {
    match s
    case IntS(_) => IntV(0)
    case BufS(_) => BufV([])
    case StructS(fs) => ObjV(Defaults(fs))
    case SizedS(fs) => ObjV(Defaults(fs))
    case ObjArrS(_) => ArrV([])
    case ValArrS(_) => ValsV([])
    case RestS => RestV([])
  }

  function Defaults(ss: seq<Shape>): seq<Val> {
    if ss == [] then [] else [Default(ss[0])] + Defaults(ss[1..])
  }

  /** Every prefix and element width in the shape is one that is marshaled. */
  predicate WellSized(s: Shape) {
    match s
    case IntS(len) => IsWidth(len)
    case BufS(len) => IsWidth(len)
    case StructS(fs) => WellSizedList(fs)
    case SizedS(fs) => WellSizedList(fs)
    case ObjArrS(e) => WellSized(e)
    case ValArrS(size) => IsWidth(size)
    case RestS => true
  }

  predicate WellSizedList(ss: seq<Shape>) {
    ss == [] || (WellSized(ss[0]) && WellSizedList(ss[1..]))
  }

  // ---------- when reading undoes writing ----------

  /** A sized structure of `body` bytes is read back: its length fits the 16-bit prefix, or is cut
      to something non-zero that no field looks at. */
  predicate SizedFits(fs: seq<Shape>, body: nat) {
    body < 0x1_0000 || (body % 0x1_0000 != 0 && (fs == [] || !fs[|fs| - 1].RestS?))
  }

  /** The sizes that occur in a value survive their prefixes. */
  predicate Fits(s: Shape, v: Val, last: bool)
    requires Typed(s, v, last)
    decreases v
  {
    match s
    case IntS(_) => true
    case BufS(sizeLen) => |v.data| < 0x1_0000_0000 && |v.data| < Pow256(sizeLen)
    case StructS(fs) => FitsList(fs, v.vals, false)
    case SizedS(fs) => FitsList(fs, v.vals, true) && SizedFits(fs, |EncList(fs, v.vals, true)|)
    case ObjArrS(e) => |v.elems| < 0x1_0000_0000 && FitsElems(e, v.elems)
    case ValArrS(_) => |v.ns| < 0x1_0000_0000 && forall i | 0 <= i < |v.ns| :: v.ns[i] < 0x1_0000_0000
    case RestS => true
  }

  predicate FitsList(ss: seq<Shape>, vs: seq<Val>, sized: bool)
    requires TypedList(ss, vs, sized)
    decreases vs
  {
    vs == [] || (Fits(ss[0], vs[0], sized && |ss| == 1) && FitsList(ss[1..], vs[1..], sized))
  }

  predicate FitsElems(e: Shape, vs: seq<Val>)
    requires TypedElems(e, vs)
    decreases vs
  {
    vs == [] || (Fits(e, vs[0], false) && FitsElems(e, vs[1..]))
  }

  lemma NumberAt(b: ByteVec, p: nat, n: nat, len: nat)
    requires At(b, p, BigEndian(n, len)) && n < Pow256(len)
    ensures FromBigEndian(b[p..p + len]) == n
  {
    BigEndianRoundTrip(n, len);
  }

  /** When a shape can take the rest of a structure, the frame must end where the value does. */
  predicate FrameOk(s: Shape, last: bool, frame: Option<SizedStructInfo>, end: nat) {
    s.RestS? ==> last && frame.Some? && frame.value.startPos + frame.value.size == end
  }

  lemma ReadElemsStep(e: Shape, n: nat, b: ByteVec, p: nat, frame: Option<SizedStructInfo>,
                      v: Val, q: nat, vs: seq<Val>, end: nat)
    requires WellSized(e) && n > 0
    requires Read(e, b, p, frame) == Success((v, q)) && ReadElems(e, n - 1, b, q, frame) == Success((vs, end))
    ensures ReadElems(e, n, b, p, frame) == Success(([v] + vs, end))
  {}

  lemma ReadListStep(ss: seq<Shape>, b: ByteVec, p: nat, frame: Option<SizedStructInfo>,
                     v: Val, q: nat, vs: seq<Val>, end: nat)
    requires WellSizedList(ss) && ss != []
    requires Read(ss[0], b, p, frame) == Success((v, q)) && ReadList(ss[1..], b, q, frame) == Success((vs, end))
    ensures ReadList(ss, b, p, frame) == Success(([v] + vs, end))
  {}

  lemma ReadSizedStep(fs: seq<Shape>, b: ByteVec, p: nat, frame: Option<SizedStructInfo>, vs: seq<Val>, end: nat)
    requires WellSizedList(fs) && p + 2 <= |b| && FromBigEndian(b[p..p + 2]) != 0
    requires ReadList(fs, b, p + 2, Some(SizedStructInfo(p + 2, FromBigEndian(b[p..p + 2])))) == Success((vs, end))
    ensures Read(SizedS(fs), b, p, frame) == Success((ObjV(vs), end))
  {}

  lemma ReadArrStep(e: Shape, b: ByteVec, p: nat, frame: Option<SizedStructInfo>, vs: seq<Val>, end: nat)
    requires WellSized(e) && p + 4 <= |b|
    requires ReadElems(e, FromBigEndian(b[p..p + 4]), b, p + 4, frame) == Success((vs, end))
    ensures Read(ObjArrS(e), b, p, frame) == Success((ArrV(vs), end))
  {}

  /** The pieces of a successful read of one value. */
  predicate Pieces(s: Shape, b: ByteVec, p: nat, frame: Option<SizedStructInfo>, v: Val, end: nat)
    requires WellSized(s)
  {
    match s
    case IntS(len) => p + len <= |b| && v == IntV(FromBigEndian(b[p..p + len])) && end == p + len
    case BufS(len) => v.BufV? && ReadSizedBuf(b, p, len) == Success(v.data) && end == p + len + |v.data|
    case StructS(fs) => v.ObjV? && ReadList(fs, b, p, frame) == Success((v.vals, end))
    case ValArrS(size) =>
      v.ValsV? && p + 4 <= |b| && ReadVals(size, FromBigEndian(b[p..p + 4]), b, p + 4) == Success((v.ns, end))
    case RestS =>
      v.RestV? && frame.Some? && frame.value.startPos + frame.value.size == end && At(b, p, v.rest)
      && end == p + |v.rest|
    case _ => false
  }

  lemma ReadPlainStep(s: Shape, b: ByteVec, p: nat, frame: Option<SizedStructInfo>, v: Val, end: nat)
    requires WellSized(s) && Pieces(s, b, p, frame, v, end)
    ensures Read(s, b, p, frame) == Success((v, end))
  {
    hide ReadList, ReadElems, ReadVals, WellSizedList;
  }

  /** Reading undoes writing, wherever the bytes stand and whatever follows them: the value and
      the final position come back. */
  lemma {:induction false} ReadBack(s: Shape, v: Val, last: bool, b: ByteVec, p: nat, frame: Option<SizedStructInfo>)
    requires WellSized(s) && Typed(s, v, last) && Fits(s, v, last)
    requires At(b, p, Enc(s, v, last))
    requires FrameOk(s, last, frame, p + |Enc(s, v, last)|)
    ensures Read(s, b, p, frame) == Success((v, p + |Enc(s, v, last)|))
    decreases v
  {
    hide BigEndian, FromBigEndian, WellSizedList, EncList, EncElems, EncVals, Read, ReadList, ReadElems, ReadVals, TypedList, TypedElems, FitsList, FitsElems;
    var end := p + |Enc(s, v, last)|;
    match s
    case IntS(len) =>
      NumberAt(b, p, v.n, len);
      ReadPlainStep(s, b, p, frame, v, end);
    case BufS(sizeLen) =>
      ReadBackBuf(sizeLen, v.data, b, p);
      ReadPlainStep(s, b, p, frame, v, end);
    case StructS(fs) =>
      ReadBackList(fs, v.vals, false, EncList(fs, v.vals, false), b, p, frame);
      ReadPlainStep(s, b, p, frame, v, end);
    case SizedS(fs) =>
      ReadBackSized(fs, v.vals, b, p, frame);
    case ObjArrS(e) =>
      ReadBackObjArr(e, v.elems, EncElems(e, v.elems), b, p, frame);
    case ValArrS(size) =>
      ReadBackValArr(size, v.ns, b, p);
      ReadPlainStep(s, b, p, frame, v, end);
    case RestS =>
      ReadPlainStep(s, b, p, frame, v, end);
  }

  lemma ReadBackBuf(sizeLen: nat, data: ByteVec, b: ByteVec, p: nat)
    requires |data| < 0x1_0000_0000 && |data| < Pow256(sizeLen)
    requires At(b, p, BigEndian(|data|, sizeLen) + data)
    ensures ReadSizedBuf(b, p, sizeLen) == Success(data)
  {
    hide BigEndian, FromBigEndian, Pow256, At;
    var q := p + sizeLen;
    AtSplit(b, p, BigEndian(|data|, sizeLen), data);
    StandsAt(b, p, BigEndian(|data|, sizeLen));
    NumberAt(b, p, |data|, sizeLen);
    StandsAt(b, q, data);
  }

  lemma StandsAt(b: ByteVec, p: nat, x: ByteVec)
    requires At(b, p, x)
    ensures p + |x| <= |b| && b[p..p + |x|] == x
  {}

  /** A four-byte count in front of an array. */
  lemma CountAt(b: ByteVec, p: nat, n: nat, rest: ByteVec)
    requires n < 0x1_0000_0000 && At(b, p, BigEndian(n, 4) + rest)
    ensures p + 4 <= |b| && FromBigEndian(b[p..p + 4]) == n && At(b, p + 4, rest)
  {
    Pow256Values();
    AtSplit(b, p, BigEndian(n, 4), rest);
    NumberAt(b, p, n, 4);
  }

  lemma {:induction false} ReadBackObjArr(
    e: Shape, vs: seq<Val>, enc: ByteVec, b: ByteVec, p: nat, frame: Option<SizedStructInfo>)
    requires WellSized(e) && TypedElems(e, vs) && FitsElems(e, vs) && |vs| < 0x1_0000_0000
    requires enc == EncElems(e, vs) && At(b, p, BigEndian(|vs|, 4) + enc)
    ensures Read(ObjArrS(e), b, p, frame) == Success((ArrV(vs), p + 4 + |enc|))
    decreases vs, 1
  {
    hide EncElems, TypedElems, FitsElems, ReadElems, Read;
    CountAt(b, p, |vs|, enc);
    ReadBackElems(e, vs, enc, b, p + 4, frame);
    ReadArrStep(e, b, p, frame, vs, p + 4 + |enc|);
  }

  lemma ReadBackValArr(size: nat, ns: seq<nat>, b: ByteVec, p: nat)
    requires IsWidth(size) && |ns| < 0x1_0000_0000
    requires forall i | 0 <= i < |ns| :: ns[i] < Pow256(size) && ns[i] < 0x1_0000_0000
    requires At(b, p, BigEndian(|ns|, 4) + EncVals(size, ns))
    ensures p + 4 <= |b| && ReadVals(size, FromBigEndian(b[p..p + 4]), b, p + 4) == Success((ns, p + 4 + |EncVals(size, ns)|))
  {
    CountAt(b, p, |ns|, EncVals(size, ns));
    ReadBackVals(size, ns, b, p + 4);
  }

  lemma {:induction false} ReadBackList(
    ss: seq<Shape>, vs: seq<Val>, sized: bool, enc: ByteVec, b: ByteVec, p: nat, frame: Option<SizedStructInfo>)
    requires WellSizedList(ss) && TypedList(ss, vs, sized) && FitsList(ss, vs, sized)
    requires enc == EncList(ss, vs, sized) && At(b, p, enc)
    requires sized && EndsInRest(ss) ==> frame.Some? && frame.value.startPos + frame.value.size == p + |enc|
    ensures ReadList(ss, b, p, frame) == Success((vs, p + |enc|))
    decreases vs, 0, 0
  {
    hide Read, WellSized, Enc;
    if vs != [] {
      var one := sized && |ss| == 1;
      var h, t := Enc(ss[0], vs[0], one), EncList(ss[1..], vs[1..], sized);
      AtSplit(b, p, h, t);
      ReadBack(ss[0], vs[0], one, b, p, frame);
      ReadBackList(ss[1..], vs[1..], sized, t, b, p + |h|, frame);
      assert [vs[0]] + vs[1..] == vs;
      ReadListStep(ss, b, p, frame, vs[0], p + |h|, vs[1..], p + |h| + |t|);
    }
  }

  predicate EndsInRest(ss: seq<Shape>) {
    ss != [] && ss[|ss| - 1].RestS?
  }

  lemma {:induction false} ReadBackElems(
    e: Shape, vs: seq<Val>, enc: ByteVec, b: ByteVec, p: nat, frame: Option<SizedStructInfo>)
    requires WellSized(e) && TypedElems(e, vs) && FitsElems(e, vs)
    requires enc == EncElems(e, vs) && At(b, p, enc)
    ensures ReadElems(e, |vs|, b, p, frame) == Success((vs, p + |enc|))
    decreases vs, 0
  {
    hide Read, ReadElems, ReadList, WellSized, Enc, Typed, Fits, At;
    if vs == [] {
      assert enc == [];
      NoElems(e, b, p, frame);
    } else {
      var h, t := Enc(e, vs[0], false), EncElems(e, vs[1..]);
      assert enc == h + t;
      AtSplit(b, p, h, t);
      NoRestElem(e, vs[0]);
      ReadBack(e, vs[0], false, b, p, frame);
      ReadBackElems(e, vs[1..], t, b, p + |h|, frame);
      assert [vs[0]] + vs[1..] == vs;
      ReadElemsStep(e, |vs|, b, p, frame, vs[0], p + |h|, vs[1..], p + |h| + |t|);
    }
  }

  lemma NoRestElem(e: Shape, v: Val)
    requires Typed(e, v, false)
    ensures !e.RestS?
  {}

  lemma NoElems(e: Shape, b: ByteVec, p: nat, frame: Option<SizedStructInfo>)
    requires WellSized(e)
    ensures ReadElems(e, 0, b, p, frame) == Success(([], p))
  {}

  lemma {:induction false} ReadBackVals(size: nat, ns: seq<nat>, b: ByteVec, p: nat)
    requires forall i | 0 <= i < |ns| :: ns[i] < Pow256(size) && ns[i] < 0x1_0000_0000
    requires At(b, p, EncVals(size, ns))
    ensures ReadVals(size, |ns|, b, p) == Success((ns, p + |EncVals(size, ns)|))
    decreases |ns|
  {
    hide BigEndian, FromBigEndian, Pow256;
    if ns != [] {
      AtSplit(b, p, BigEndian(ns[0], size), EncVals(size, ns[1..]));
      NumberAt(b, p, ns[0], size);
      ReadBackVals(size, ns[1..], b, p + size);
      assert [ns[0]] + ns[1..] == ns;
    }
  }

  lemma BigEndianWraps(n: nat)
    ensures BigEndian(n, 2) == BigEndian(n % 0x1_0000, 2)
  {
    hide BigEndian;
    LowPairIsBigEndian(n);
    LowPairIsBigEndian(n % 0x1_0000);
    LowPairWraps(n);
  }

  lemma LowPairWraps(n: nat)
    ensures n % 0x1_0000 % 0x100 == n % 0x100 && n % 0x1_0000 / 0x100 == n / 0x100 % 0x100
  {}

  /** The size that a reader finds in front of a sized structure. */
  lemma SizeAt(b: ByteVec, p: nat, n: nat)
    requires At(b, p, BigEndian(n, 2))
    ensures FromBigEndian(b[p..p + 2]) == n % 0x1_0000
  {
    Pow256Values();
    BigEndianWraps(n);
    NumberAt(b, p, n % 0x1_0000, 2);
  }

  lemma {:induction false} ReadBackSized(fs: seq<Shape>, vs: seq<Val>, b: ByteVec, p: nat, frame: Option<SizedStructInfo>)
    requires WellSizedList(fs) && TypedList(fs, vs, true) && FitsList(fs, vs, true)
    requires SizedFits(fs, |EncList(fs, vs, true)|)
    requires At(b, p, Enc(SizedS(fs), ObjV(vs), false))
    ensures Read(SizedS(fs), b, p, frame) == Success((ObjV(vs), p + |Enc(SizedS(fs), ObjV(vs), false)|))
    decreases vs, 1
  {
    hide BigEndian, FromBigEndian, At, EncList, FitsList, TypedList, WellSizedList, ReadList;
    var body := EncList(fs, vs, true);
    AtSplit(b, p, BigEndian(|body|, 2), body);
    StandsAt(b, p, BigEndian(|body|, 2));
    SizeAt(b, p, |body|);
    if |body| == 0 {
      EmptyBodyIsDefault(fs, vs);
    } else {
      ReadBackBody(fs, vs, body, b, p, frame);
    }
  }

  lemma {:induction false} ReadBackBody(
    fs: seq<Shape>, vs: seq<Val>, body: ByteVec, b: ByteVec, p: nat, frame: Option<SizedStructInfo>)
    requires WellSizedList(fs) && TypedList(fs, vs, true) && FitsList(fs, vs, true)
    requires body == EncList(fs, vs, true) && SizedFits(fs, |body|) && |body| > 0
    requires p + 2 <= |b| && FromBigEndian(b[p..p + 2]) == |body| % 0x1_0000
    requires At(b, p + 2, body)
    ensures Read(SizedS(fs), b, p, frame) == Success((ObjV(vs), p + 2 + |body|))
    decreases vs, 0, 1
  {
    hide EncList, TypedList, FitsList, WellSizedList, ReadList;
    ReadBackList(fs, vs, true, body, b, p + 2, Some(SizedStructInfo(p + 2, |body| % 0x1_0000)));
    ReadSizedStep(fs, b, p, frame, vs, p + 2 + |body|);
  }

  /** Only empty values take no bytes, so skipping a zero-length structure loses nothing. */
  lemma {:induction false} EmptyBodyIsDefault(fs: seq<Shape>, vs: seq<Val>)
    requires TypedList(fs, vs, true) && EncList(fs, vs, true) == []
    ensures vs == Defaults(fs)
    decreases vs
  {
    if vs != [] {
      EmptyIsDefault(fs[0], vs[0], |fs| == 1);
      EmptyBodyIsDefault(fs[1..], vs[1..]);
    }
  }

  lemma {:induction false} EmptyIsDefault(s: Shape, v: Val, last: bool)
    requires Typed(s, v, last) && Enc(s, v, last) == []
    ensures v == Default(s)
    decreases v
  {
    if s.StructS? {
      EmptyListIsDefault(s.fields, v.vals);
    }
  }

  lemma {:induction false} EmptyListIsDefault(fs: seq<Shape>, vs: seq<Val>)
    requires TypedList(fs, vs, false) && EncList(fs, vs, false) == []
    ensures vs == Defaults(fs)
    decreases vs
  {
    if vs != [] {
      EmptyIsDefault(fs[0], vs[0], false);
      EmptyListIsDefault(fs[1..], vs[1..]);
    }
  }

  /** A sized structure of no bytes reads as zeros and empty fields. */
  lemma ZeroLengthReadsZeros(fs: seq<Shape>, b: ByteVec, p: nat, frame: Option<SizedStructInfo>)
    requires WellSizedList(fs) && At(b, p, [0, 0])
    ensures var r := Read(SizedS(fs), b, p, frame);
            && r.Success? && r.value.1 == p + 2 && r.value.0.ObjV? && |r.value.0.vals| == |fs|
            && forall i | 0 <= i < |fs| ::
                 && (fs[i].IntS? ==> r.value.0.vals[i] == IntV(0)) && (fs[i].BufS? ==> r.value.0.vals[i] == BufV([]))
                 && (fs[i].ObjArrS? ==> r.value.0.vals[i] == ArrV([])) && (fs[i].ValArrS? ==> r.value.0.vals[i] == ValsV([]))
                 && (fs[i].RestS? ==> r.value.0.vals[i] == RestV([]))
  {
    hide ReadList;
    assert b[p..p + 2] == [0, 0] && [0, 0][..1] == [0] && [0][..0] == [];
    assert FromBigEndian([0]) == 0 && FromBigEndian([0, 0]) == 0;
    DefaultsAt(fs);
  }

  lemma {:induction false} DefaultsAt(fs: seq<Shape>)
    ensures |Defaults(fs)| == |fs| && forall i | 0 <= i < |fs| :: Defaults(fs)[i] == Default(fs[i])
  {
    hide Default;
    if fs != [] {
      DefaultsAt(fs[1..]);
    }
  }

  /** A buffer that comes back is one whose length fits the prefix. */
  lemma ReadBufFits(sizeLen: nat, data: ByteVec, b: ByteVec, p: nat)
    requires IsWidth(sizeLen) && At(b, p, BigEndian(|data| % 0x1_0000_0000, sizeLen) + data)
    requires ReadSizedBuf(b, p, sizeLen) == Success(data)
    ensures |data| < 0x1_0000_0000 && |data| < Pow256(sizeLen)
  {
    hide BigEndian, FromBigEndian, Pow256;
    Pow256Values();
    AtSplit(b, p, BigEndian(|data| % 0x1_0000_0000, sizeLen), data);
    FromBigEndianBound(b[p..p + sizeLen]);
    if sizeLen == 8 {
      NumberAt(b, p, |data| % 0x1_0000_0000, 8);
    }
  }

  lemma {:induction false} ReadValsFit(size: nat, n: nat, b: ByteVec, p: nat)
    requires ReadVals(size, n, b, p).Success?
    ensures var ns := ReadVals(size, n, b, p).value.0;
            |ns| == n && forall i | 0 <= i < |ns| :: ns[i] < 0x1_0000_0000
    decreases n
  {
    hide FromBigEndian;
    if n > 0 {
      ReadValsFit(size, n - 1, b, p + size);
    }
  }

  /** Exactly which buffers and arrays of numbers come back: buffers whose length fits the prefix,
      arrays of less than 2^32 elements below 2^32. */
  lemma LeafReadsBackIff(s: Shape, v: Val, last: bool, b: ByteVec, p: nat, frame: Option<SizedStructInfo>)
    requires WellSized(s) && (s.BufS? || s.ValArrS?) && Typed(s, v, last)
    requires At(b, p, Enc(s, v, last))
    ensures Read(s, b, p, frame) == Success((v, p + |Enc(s, v, last)|)) <==> Fits(s, v, last)
  {
    hide BigEndian, FromBigEndian, ReadVals, EncVals;
    if Fits(s, v, last) {
      ReadBack(s, v, last, b, p, frame);
    }
    if Read(s, b, p, frame) == Success((v, p + |Enc(s, v, last)|)) {
      if s.BufS? {
        ReadBufFits(s.sizeLen, v.data, b, p);
      } else {
        Pow256Values();
        FromBigEndianBound(b[p..p + 4]);
        ReadValsFit(s.valSize, FromBigEndian(b[p..p + 4]), b, p + 4);
      }
    }
  }

  /** Exactly which sized structures come back, once their fields do: those of fewer than 64 KiB,
      and longer ones only if the cut length is non-zero and no field depends on it. */
  lemma SizedReadsBackIff(fs: seq<Shape>, vs: seq<Val>, b: ByteVec, p: nat, frame: Option<SizedStructInfo>)
    requires WellSizedList(fs) && TypedList(fs, vs, true) && FitsList(fs, vs, true)
    requires At(b, p, Enc(SizedS(fs), ObjV(vs), false))
    ensures Read(SizedS(fs), b, p, frame) == Success((ObjV(vs), p + |Enc(SizedS(fs), ObjV(vs), false)|))
       <==> SizedFits(fs, |EncList(fs, vs, true)|)
  {
    var body := EncList(fs, vs, true);
    if SizedFits(fs, |body|) {
      ReadBackSized(fs, vs, b, p, frame);
    } else {
      AtSplit(b, p, BigEndian(|body|, 2), body);
      SizeAt(b, p, |body|);
      var cut := |body| % 0x1_0000;
      if cut != 0 {
        RestEndsAtFrame(fs, b, p + 2, SizedStructInfo(p + 2, cut));
      }
    }
  }

  /** A list that ends with the rest of the structure ends where the frame says. */
  lemma {:induction false} RestEndsAtFrame(ss: seq<Shape>, b: ByteVec, p: nat, frame: SizedStructInfo)
    requires WellSizedList(ss) && EndsInRest(ss)
    ensures var r := ReadList(ss, b, p, Some(frame));
            r.Success? ==> r.value.1 == frame.startPos + frame.size
    decreases ss
  {
    var h := Read(ss[0], b, p, Some(frame));
    if h.Success? && |ss| > 1 {
      RestEndsAtFrame(ss[1..], b, h.value.1, frame);
    }
  }
}
