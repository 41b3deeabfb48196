/** Well-formed crypto-agile logs (TCG PC Client Platform Firmware Profile, section 10.2.2): the
    iterator yields exactly the encoded events. */
module WbclRoundTrip {
  import opened Bytes
  import opened Wrappers
  import opened WbclLog

  // ---------- the format ----------

  /** TPMT_HA. */
  datatype DigestValue = DigestValue(alg: nat, digest: ByteVec)

  /** TCG_PCR_EVENT2. */
  datatype LogEvent = LogEvent(pcr: nat, kind: nat, digests: seq<DigestValue>, data: ByteVec)

  datatype AlgorithmSize = AlgorithmSize(alg: nat, size: nat)

  /** The Spec ID event and the SHA-1 digest field it is logged with. */
  datatype Descriptor = Descriptor(
    digest: ByteVec, platformClass: nat, minor: byte, major: byte, errata: byte, uintnSize: byte,
    sizes: seq<AlgorithmSize>, vendorInfo: ByteVec)

  function EncodeDigest(d: DigestValue): ByteVec {
    LittleEndian(d.alg, 2) + d.digest
  }

  function EncodeDigests(ds: seq<DigestValue>): ByteVec {
    if ds == [] then [] else EncodeDigest(ds[0]) + EncodeDigests(ds[1..])
  }

  function EncodeEvent(e: LogEvent): ByteVec {
    LittleEndian(e.pcr, 4) + (LittleEndian(e.kind, 4) + (LittleEndian(|e.digests|, 4) + (EncodeDigests(e.digests)
    + (LittleEndian(|e.data|, 4) + e.data))))
  }

  function EncodeEvents(es: seq<LogEvent>): ByteVec {
    if es == [] then [] else EncodeEvent(es[0]) + EncodeEvents(es[1..])
  }

  function EncodeSizes(ss: seq<AlgorithmSize>): ByteVec {
    if ss == [] then [] else LittleEndian(ss[0].alg, 2) + (LittleEndian(ss[0].size, 2) + EncodeSizes(ss[1..]))
  }

  function EncodeSpecId(d: Descriptor): ByteVec {
    SIGNATURE + (LittleEndian(d.platformClass, 4) + ([d.minor] + ([d.major] + ([d.errata] + ([d.uintnSize]
    + (LittleEndian(|d.sizes|, 4) + (EncodeSizes(d.sizes) + ([(|d.vendorInfo| % 0x100) as byte] + d.vendorInfo))))))))
  }

  function EncodeDescriptor(d: Descriptor): ByteVec {
    LittleEndian(0, 4) + (LittleEndian(NO_ACTION, 4) + (d.digest + (LittleEndian(|EncodeSpecId(d)|, 4) + EncodeSpecId(d))))
  }

  function EncodeLog(d: Descriptor, es: seq<LogEvent>): ByteVec {
    EncodeDescriptor(d) + EncodeEvents(es)
  }

  /** The digest size the table gives for an algorithm. */
  function SizeIn(sizes: seq<AlgorithmSize>, alg: nat): nat {
    if sizes == [] then SHA1_DIGEST_SIZE else if sizes[0].alg == alg then sizes[0].size else SizeIn(sizes[1..], alg)
  }

  predicate Listed(sizes: seq<AlgorithmSize>, alg: nat) {
    exists i | 0 <= i < |sizes| :: sizes[i].alg == alg
  }

  /** The algorithm the iterator works with: SHA-256 if the log has it. */
  function PreferredAlg(d: Descriptor): nat {
    if Listed(d.sizes, ALG_SHA256) then ALG_SHA256 else ALG_SHA1
  }

  function PreferredSize(d: Descriptor): nat {
    if Listed(d.sizes, ALG_SHA256) then SHA256_DIGEST_SIZE else SHA1_DIGEST_SIZE
  }

  /** The fields have the sizes of the format. */
  predicate DescriptorShape(d: Descriptor) {
    && |d.digest| == SHA1_DIGEST_SIZE && d.platformClass < UINT32_LIMIT && |d.vendorInfo| < 0x100
    && 1 <= |d.sizes| <= MAX_NUMBER_OF_DIGESTS
    && (forall i | 0 <= i < |d.sizes| :: d.sizes[i].alg <= ALG_SHA512 && d.sizes[i].size < 0x1_0000)
  }

  /** Version 1.2 or later, and one of the two algorithms that the iterator knows. */
  predicate DescriptorSupported(d: Descriptor) {
    && (d.major > 1 || (d.major == 1 && d.minor >= 2))
    && (Listed(d.sizes, ALG_SHA256) || Listed(d.sizes, ALG_SHA1))
  }

  predicate DescriptorOk(d: Descriptor) {
    && DescriptorShape(d) && DescriptorSupported(d)
    && SizeIn(d.sizes, PreferredAlg(d)) == PreferredSize(d)
  }

  predicate HasDigest(e: LogEvent, alg: nat) {
    exists i | 0 <= i < |e.digests| :: e.digests[i].alg == alg
  }

  predicate EventOk(d: Descriptor, e: LogEvent) {
    && e.pcr < UINT32_LIMIT && e.kind < UINT32_LIMIT && |e.digests| <= MAX_NUMBER_OF_DIGESTS
    && (forall i | 0 <= i < |e.digests| ::
          e.digests[i].alg < 0x1_0000 && |e.digests[i].digest| == SizeIn(d.sizes, e.digests[i].alg))
    && HasDigest(e, PreferredAlg(d))
  }

  /** The first digest of an algorithm. */
  function DigestOf(ds: seq<DigestValue>, alg: nat): ByteVec {
    if ds == [] then [] else if ds[0].alg == alg then ds[0].digest else DigestOf(ds[1..], alg)
  }

  // ---------- the iteration ----------

  /** What WbclApiGetCurrentElement gives for an element. */
  datatype Seen = Seen(pcr: nat, kind: nat, digest: ByteVec, data: ByteVec)

  function Stretch(m: Memory, p: nat, n: nat): (r: ByteVec)
    ensures |r| == n
  {
    seq(n, i requires 0 <= i < n => m(p + i))
  }

  function SeenAt(m: Memory, log: Layout, p: nat): Seen {
    var digest := match Digest(m, log, p) case None => [] case Some(o) => Stretch(m, o, log.digestSize);
    var data := match Data(m, log, p) case None => [] case Some(o) => Stretch(m, o, DataSize(m, log, p));
    Seen(U32(m, p), U32(m, p + 4), digest, data)
  }

  /** What a caller sees who moves until the iteration does not go on. */
  function Walk(m: Memory, it: Iter): seq<Seen>
    decreases it.log.logSize - (if it.current.Some? then it.current.value else it.log.logSize), if AtEnd(it) then 0 else 1
  {
    if AtEnd(it) then [] else
    MoveIsSafe(m, it);
    [SeenAt(m, it.log, it.current.value)] + (if Move(m, it).0 == S_OK then Walk(m, Move(m, it).1) else [])
  }

  function Expected(d: Descriptor, e: LogEvent): Seen {
    Seen(e.pcr, e.kind, DigestOf(e.digests, PreferredAlg(d)), e.data)
  }

  function ExpectedAll(d: Descriptor, es: seq<LogEvent>): seq<Seen> {
    seq(|es|, i requires 0 <= i < |es| => Expected(d, es[i]))
  }

  // ---------- reading encoded pieces ----------

  /** Memory holds `enc` at `p`. */
  predicate Holds(m: Memory, p: nat, enc: ByteVec) {
    forall i | 0 <= i < |enc| :: m(p + i) == enc[i]
  }

  lemma HoldsSplit(m: Memory, p: nat, x: ByteVec, y: ByteVec)
    requires Holds(m, p, x + y)
    ensures Holds(m, p, x) && Holds(m, p + |x|, y)
  {
    forall i | 0 <= i < |x|
      ensures m(p + i) == x[i]
    {
      assert (x + y)[i] == x[i];
    }
    forall i | 0 <= i < |y|
      ensures m(p + |x| + i) == y[i]
    {
      assert m(p + (|x| + i)) == (x + y)[|x| + i] == y[i];
    }
  }

  lemma HeldStretch(m: Memory, p: nat, x: ByteVec)
    requires Holds(m, p, x)
    ensures Stretch(m, p, |x|) == x
  {}

  lemma Held32(m: Memory, p: nat, n: nat)
    requires Holds(m, p, LittleEndian(n, 4)) && n < UINT32_LIMIT
    ensures U32(m, p) == n
  {
    Pow256Values();
    LittleEndianRoundTrip(n, 4);
    var b := LittleEndian(n, 4);
    assert m(p + 0) == b[0] && m(p + 1) == b[1] && m(p + 2) == b[2] && m(p + 3) == b[3];
    FourBytes(b);
  }

  lemma FourBytes(b: ByteVec)
    requires |b| == 4
    ensures FromLittleEndian(b)
         == b[0] as int + 0x100 * b[1] as int + 0x1_0000 * b[2] as int + 0x100_0000 * b[3] as int
  {
    assert b[1..][1..] == b[2..] && b[2..][1..] == b[3..] && b[3..][1..] == [];
    assert FromLittleEndian(b[3..]) == b[3] as int;
    assert FromLittleEndian(b[2..]) == b[2] as int + 256 * FromLittleEndian(b[3..]);
  }

  lemma Held16(m: Memory, p: nat, n: nat)
    requires Holds(m, p, LittleEndian(n, 2)) && n < 0x1_0000
    ensures U16(m, p) == n
  {
    Pow256Values();
    LittleEndianRoundTrip(n, 2);
    var b := LittleEndian(n, 2);
    assert m(p + 0) == b[0] && m(p + 1) == b[1];
    assert b[1..][1..] == [];
    assert FromLittleEndian(b) == b[0] as int + 256 * b[1] as int;
  }

  // ---------- the walkers on encoded digests ----------

  /** The layout describes the table in memory. */
  predicate TableHeld(m: Memory, log: Layout, sizes: seq<AlgorithmSize>) {
    && log.agile && log.numberOfDigests == |sizes| && Holds(m, log.digestSizes, EncodeSizes(sizes))
    && forall i | 0 <= i < |sizes| :: sizes[i].alg < 0x1_0000 && sizes[i].size < 0x1_0000
  }

  lemma {:induction false} TableSizeIs(m: Memory, log: Layout, sizes: seq<AlgorithmSize>, alg: nat, i: nat)
    requires i + |sizes| == log.numberOfDigests && Holds(m, log.digestSizes + 4 * i, EncodeSizes(sizes))
    requires forall k | 0 <= k < |sizes| :: sizes[k].alg < 0x1_0000 && sizes[k].size < 0x1_0000
    ensures TableSize(m, log, alg, i) == SizeIn(sizes, alg)
    decreases |sizes|
  {
    hide LittleEndian, U16;
    if sizes != [] {
      var p := log.digestSizes + 4 * i;
      HoldsSplit(m, p, LittleEndian(sizes[0].alg, 2), LittleEndian(sizes[0].size, 2) + EncodeSizes(sizes[1..]));
      HoldsSplit(m, p + 2, LittleEndian(sizes[0].size, 2), EncodeSizes(sizes[1..]));
      Held16(m, p, sizes[0].alg);
      Held16(m, p + 2, sizes[0].size);
      TableSizeIs(m, log, sizes[1..], alg, i + 1);
    }
  }

  predicate DigestsOk(sizes: seq<AlgorithmSize>, ds: seq<DigestValue>) {
    forall i | 0 <= i < |ds| :: ds[i].alg < 0x1_0000 && |ds[i].digest| == SizeIn(sizes, ds[i].alg)
  }

  lemma {:induction false} MeasureIs(m: Memory, log: Layout, sizes: seq<AlgorithmSize>, ds: seq<DigestValue>, p: nat, size: nat)
    requires TableHeld(m, log, sizes) && DigestsOk(sizes, ds) && Holds(m, p, EncodeDigests(ds))
    requires p + |EncodeDigests(ds)| <= log.logSize
    ensures MeasureFrom(m, log, p, |ds|, size) == Some(size + |EncodeDigests(ds)|)
    decreases |ds|
  {
    hide LittleEndian, U16, EncodeSizes, SizeIn, TableSize;
    if ds != [] {
      var d := ds[0];
      HoldsSplit(m, p, EncodeDigest(d), EncodeDigests(ds[1..]));
      HoldsSplit(m, p, LittleEndian(d.alg, 2), d.digest);
      Held16(m, p, d.alg);
      TableSizeIs(m, log, sizes, d.alg, 0);
      MeasureIs(m, log, sizes, ds[1..], p + 2 + |d.digest|, size + 2 + |d.digest|);
    }
  }

  lemma {:induction false} FindIs(m: Memory, log: Layout, sizes: seq<AlgorithmSize>, ds: seq<DigestValue>, p: nat)
    requires TableHeld(m, log, sizes) && DigestsOk(sizes, ds) && Holds(m, p, EncodeDigests(ds))
    requires p + |EncodeDigests(ds)| <= log.logSize
    requires exists i | 0 <= i < |ds| :: ds[i].alg == log.hashAlgorithm
    ensures var r := FindDigest(m, log, p, |ds|);
            && r.Some? && |DigestOf(ds, log.hashAlgorithm)| == SizeIn(sizes, log.hashAlgorithm)
            && Stretch(m, r.value, SizeIn(sizes, log.hashAlgorithm)) == DigestOf(ds, log.hashAlgorithm)
    decreases |ds|
  {
    hide LittleEndian, U16, EncodeSizes, SizeIn, TableSize, Stretch;
    var d := ds[0];
    HoldsSplit(m, p, EncodeDigest(d), EncodeDigests(ds[1..]));
    HoldsSplit(m, p, LittleEndian(d.alg, 2), d.digest);
    Held16(m, p, d.alg);
    if d.alg == log.hashAlgorithm {
      HeldStretch(m, p + 2, d.digest);
    } else {
      TableSizeIs(m, log, sizes, d.alg, 0);
      var i :| 0 <= i < |ds| && ds[i].alg == log.hashAlgorithm;
      assert ds[1..][i - 1].alg == log.hashAlgorithm;
      FindIs(m, log, sizes, ds[1..], p + 2 + |d.digest|);
    }
  }

  // ---------- one event ----------

  predicate LogHeld(m: Memory, log: Layout, d: Descriptor) {
    && TableHeld(m, log, d.sizes) && DescriptorOk(d)
    && log.hashAlgorithm == PreferredAlg(d) && log.digestSize == PreferredSize(d)
  }

  function EventSize(e: LogEvent): nat {
    16 + |EncodeDigests(e.digests)| + |e.data|
  }

  /** Where the parts of an event stand. */
  lemma EventParts(m: Memory, p: nat, e: LogEvent)
    requires Holds(m, p, EncodeEvent(e)) && e.pcr < UINT32_LIMIT && e.kind < UINT32_LIMIT
    requires |e.digests| <= MAX_NUMBER_OF_DIGESTS && |e.data| < UINT32_LIMIT
    ensures var q := p + 12 + |EncodeDigests(e.digests)|;
            && U32(m, p) == e.pcr && U32(m, p + 4) == e.kind && U32(m, p + 8) == |e.digests|
            && Holds(m, p + 12, EncodeDigests(e.digests)) && U32(m, q) == |e.data| && Holds(m, q + 4, e.data)
    ensures |EncodeEvent(e)| == EventSize(e)
  {
    hide LittleEndian, U32, EncodeDigests, Holds;
    var digests := EncodeDigests(e.digests);
    var t4 := LittleEndian(|e.data|, 4) + e.data;
    var t3 := digests + t4;
    var t2 := LittleEndian(|e.digests|, 4) + t3;
    var t1 := LittleEndian(e.kind, 4) + t2;
    HoldsSplit(m, p, LittleEndian(e.pcr, 4), t1);
    HoldsSplit(m, p + 4, LittleEndian(e.kind, 4), t2);
    HoldsSplit(m, p + 8, LittleEndian(|e.digests|, 4), t3);
    HoldsSplit(m, p + 12, digests, t4);
    HoldsSplit(m, p + 12 + |digests|, LittleEndian(|e.data|, 4), e.data);
    Held32(m, p, e.pcr);
    Held32(m, p + 4, e.kind);
    Held32(m, p + 8, |e.digests|);
    Held32(m, p + 12 + |digests|, |e.data|);
  }

  /** The walkers on an encoded event. */
  lemma EventIs(m: Memory, log: Layout, d: Descriptor, e: LogEvent, p: nat)
    requires LogHeld(m, log, d) && EventOk(d, e) && Holds(m, p, EncodeEvent(e))
    requires p + |EncodeEvent(e)| <= log.logSize < UINT32_LIMIT
    ensures ElementSize(m, log, p) == Some(EventSize(e)) && |EncodeEvent(e)| == EventSize(e)
    ensures SeenAt(m, log, p) == Expected(d, e)
  {
    hide LittleEndian, U32, U16, EncodeDigests, Holds, MeasureFrom, FindDigest, Stretch, EncodeSizes, SizeIn, EncodeEvent, DigestOf;
    assert |EncodeEvent(e)| == EventSize(e) by {
      EventLength(e);
    }
    EventParts(m, p, e);
    var digests := EncodeDigests(e.digests);
    MeasureIs(m, log, d.sizes, e.digests, p + 12, 4);
    FindIs(m, log, d.sizes, e.digests, p + 12);
    HeldStretch(m, p + 16 + |digests|, e.data);
  }

  lemma EventLength(e: LogEvent)
    ensures |EncodeEvent(e)| == EventSize(e)
  {
    hide LittleEndian, EncodeDigests;
  }

  lemma {:induction false} ContainsDigest(ds: seq<DigestValue>, alg: nat)
    requires exists i | 0 <= i < |ds| :: ds[i].alg == alg
    ensures |EncodeDigests(ds)| >= 2 + |DigestOf(ds, alg)|
    decreases |ds|
  {
    hide LittleEndian;
    if ds[0].alg != alg {
      var i :| 0 <= i < |ds| && ds[i].alg == alg;
      assert ds[1..][i - 1].alg == alg;
      ContainsDigest(ds[1..], alg);
    }
  }

  /** Every event is at least as long as Move demands. */
  lemma EventLongEnough(m: Memory, log: Layout, d: Descriptor, e: LogEvent, p: nat)
    requires LogHeld(m, log, d) && EventOk(d, e) && Holds(m, p, EncodeEvent(e))
    requires p + |EncodeEvent(e)| <= log.logSize < UINT32_LIMIT
    ensures EventSize(e) >= MinimumSize(log)
  {
    hide LittleEndian, U32, U16, EncodeDigests, Holds, FindDigest, Stretch, EncodeSizes, SizeIn, EncodeEvent, DigestOf;
    EventLength(e);
    EventParts(m, p, e);
    FindIs(m, log, d.sizes, e.digests, p + 12);
    ContainsDigest(e.digests, log.hashAlgorithm);
  }

  // ---------- all events ----------

  /** The iterator stands on an event of the log. */
  predicate OnEvent(it: Iter, p: nat, e: LogEvent) {
    it.current == Some(p) && it.currentSize == EventSize(e)
  }

  /** Moving from whatever element ends at `next` to the event there. */
  lemma MoveOnto(m: Memory, it: Iter, d: Descriptor, e: LogEvent, next: nat)
    requires LogHeld(m, it.log, d) && EventOk(d, e) && Holds(m, next, EncodeEvent(e))
    requires !AtEnd(it) && it.current.value + it.currentSize == next
    requires next + |EncodeEvent(e)| <= it.log.logSize < UINT32_LIMIT
    ensures var (hr, it') := Move(m, it);
            hr == S_OK && it'.log == it.log && OnEvent(it', next, e)
  {
    hide ElementSize, EncodeEvent, SeenAt, Expected, LogHeld, EventOk, Holds;
    EventIs(m, it.log, d, e, next);
    EventLongEnough(m, it.log, d, e, next);
  }

  /** There is no further element at `q`: too few bytes are left for one, or the one that stands there
      cannot be measured, would not fit, or has a size that wrapped to zero. */
  predicate NothingAt(m: Memory, log: Layout, q: nat) {
    q + MinimumSize(log) > log.logSize
    || ElementSize(m, log, q).None?
    || q + ElementSize(m, log, q).value > log.logSize
    || ElementSize(m, log, q).value == 0
  }

  /** From its first event on, the iterator yields the events, and then ends exactly if there is nothing
      behind them. */
  lemma {:induction false} WalkEvents(m: Memory, it: Iter, d: Descriptor, es: seq<LogEvent>, p: nat)
    requires LogHeld(m, it.log, d) && es != [] && (forall i | 0 <= i < |es| :: EventOk(d, es[i]))
    requires Holds(m, p, EncodeEvents(es)) && p + |EncodeEvents(es)| <= it.log.logSize < UINT32_LIMIT
    requires OnEvent(it, p, es[0])
    ensures var walk := Walk(m, it);
            && |walk| >= |es| && walk[..|es|] == ExpectedAll(d, es)
            && (|walk| == |es| <==> NothingAt(m, it.log, p + |EncodeEvents(es)|))
    decreases |es|
  {
    hide EncodeEvent, SeenAt, Expected, LogHeld, EventOk, Holds, ElementSize, MinimumSize, Walk, NothingAt;
    var e, rest := es[0], es[1..];
    HoldsSplit(m, p, EncodeEvent(e), EncodeEvents(rest));
    EventIs(m, it.log, d, e, p);
    var next := p + EventSize(e);
    WalkStep(m, it);
    assert ExpectedAll(d, es) == [Expected(d, e)] + ExpectedAll(d, rest);
    if rest == [] {
      BehindLast(m, it, next);
      assert ExpectedAll(d, rest) == [];
    } else {
      HoldsSplit(m, next, EncodeEvent(rest[0]), EncodeEvents(rest[1..]));
      MoveOnto(m, it, d, rest[0], next);
      WalkEvents(m, Move(m, it).1, d, rest, next);
    }
  }

  lemma WalkStep(m: Memory, it: Iter)
    requires !AtEnd(it)
    ensures Walk(m, it) == [SeenAt(m, it.log, it.current.value)] + (if Move(m, it).0 == S_OK then Walk(m, Move(m, it).1) else [])
  {
    hide Move, SeenAt;
    MoveIsSafe(m, it);
  }

  /** Whether the iteration goes on behind the current element. */
  lemma BehindLast(m: Memory, it: Iter, next: nat)
    requires !AtEnd(it) && it.current.value + it.currentSize == next
    ensures (if Move(m, it).0 == S_OK then Walk(m, Move(m, it).1) else []) == [] <==> NothingAt(m, it.log, next)
  {
    hide SeenAt, ElementSize, MinimumSize;
    MoveIsSafe(m, it);
    var r := Move(m, it);
    if r.0 == S_OK && !AtEnd(r.1) {
      WalkStep(m, r.1);
    }
  }

  lemma NothingFollows(m: Memory, it: Iter)
    requires !AtEnd(it) && it.current.value + it.currentSize == it.log.logSize
    ensures Move(m, it).0 == S_FALSE
  {}

  // ---------- the descriptor ----------

  /** Where the parts of the Spec ID event stand. */
  lemma SpecIdParts(m: Memory, p: nat, d: Descriptor)
    requires Holds(m, p, EncodeSpecId(d)) && d.platformClass < UINT32_LIMIT && |d.sizes| <= MAX_NUMBER_OF_DIGESTS
    ensures HasSignature(m, p) && m(p + VERSION_MINOR_OFFSET) == d.minor && m(p + VERSION_MAJOR_OFFSET) == d.major
    ensures U32(m, p + ALGORITHMS_OFFSET) == |d.sizes| && Holds(m, p + DIGEST_SIZES_OFFSET, EncodeSizes(d.sizes))
    ensures |EncodeSpecId(d)| == 29 + |EncodeSizes(d.sizes)| + |d.vendorInfo|
  {
    hide LittleEndian, U32, EncodeSizes;
    var t8 := [(|d.vendorInfo| % 0x100) as byte] + d.vendorInfo;
    var t7 := EncodeSizes(d.sizes) + t8;
    var t6 := LittleEndian(|d.sizes|, 4) + t7;
    var t5 := [d.uintnSize] + t6;
    var t4 := [d.errata] + t5;
    var t3 := [d.major] + t4;
    var t2 := [d.minor] + t3;
    var t1 := LittleEndian(d.platformClass, 4) + t2;
    HoldsSplit(m, p, SIGNATURE, t1);
    HoldsSplit(m, p + 16, LittleEndian(d.platformClass, 4), t2);
    HoldsSplit(m, p + 20, [d.minor], t3);
    HoldsSplit(m, p + 21, [d.major], t4);
    HoldsSplit(m, p + 22, [d.errata], t5);
    HoldsSplit(m, p + 23, [d.uintnSize], t6);
    HoldsSplit(m, p + 24, LittleEndian(|d.sizes|, 4), t7);
    HoldsSplit(m, p + 28, EncodeSizes(d.sizes), t8);
    Held32(m, p + 24, |d.sizes|);
    assert m(p + 20 + 0) == [d.minor][0] && m(p + 21 + 0) == [d.major][0];
  }

  lemma {:induction false} SizesLength(ss: seq<AlgorithmSize>)
    ensures |EncodeSizes(ss)| == 4 * |ss|
  {
    hide LittleEndian;
    if ss != [] {
      SizesLength(ss[1..]);
    }
  }

  /** The bits of the supported algorithms. */
  lemma {:induction false} SupportedIs(m: Memory, sizes: nat, ss: seq<AlgorithmSize>, n: nat, i: nat, beyond: nat -> bv32)
    requires i + |ss| == n && Holds(m, sizes + 4 * i, EncodeSizes(ss))
    requires forall k | 0 <= k < |ss| :: ss[k].alg <= ALG_SHA512 && ss[k].size < 0x1_0000
    ensures var r := SupportedFrom(m, sizes, n, i, beyond);
            && (r & 2 != 0 <==> Listed(ss, ALG_SHA256)) && (r & 1 != 0 <==> Listed(ss, ALG_SHA1))
    decreases |ss|
  {
    hide LittleEndian, U16, Listed;
    if ss == [] {
      ListedNext(ss);
    } else {
      var p := sizes + 4 * i;
      HoldsSplit(m, p, LittleEndian(ss[0].alg, 2), LittleEndian(ss[0].size, 2) + EncodeSizes(ss[1..]));
      HoldsSplit(m, p + 2, LittleEndian(ss[0].size, 2), EncodeSizes(ss[1..]));
      Held16(m, p, ss[0].alg);
      SupportedIs(m, sizes, ss[1..], n, i + 1, beyond);
      ListedNext(ss);
      BitsOr(AlgorithmBit(ss[0].alg, beyond), SupportedFrom(m, sizes, n, i + 1, beyond));
    }
  }

  lemma BitsOr(a: bv32, b: bv32)
    ensures (a | b) & 2 != 0 <==> a & 2 != 0 || b & 2 != 0
    ensures (a | b) & 1 != 0 <==> a & 1 != 0 || b & 1 != 0
  {}

  lemma ListedNext(ss: seq<AlgorithmSize>)
    ensures ss == [] ==> !Listed(ss, ALG_SHA256) && !Listed(ss, ALG_SHA1)
    ensures ss != [] ==> (Listed(ss, ALG_SHA256) <==> ss[0].alg == ALG_SHA256 || Listed(ss[1..], ALG_SHA256))
    ensures ss != [] ==> (Listed(ss, ALG_SHA1) <==> ss[0].alg == ALG_SHA1 || Listed(ss[1..], ALG_SHA1))
  {
    if ss != [] {
      forall alg
        ensures Listed(ss, alg) <==> ss[0].alg == alg || Listed(ss[1..], alg)
      {
        if Listed(ss, alg) && ss[0].alg != alg {
          var i :| 0 <= i < |ss| && ss[i].alg == alg;
          assert ss[1..][i - 1].alg == alg;
        }
        if Listed(ss[1..], alg) {
          var i :| 0 <= i < |ss[1..]| && ss[1..][i].alg == alg;
          assert ss[i + 1].alg == alg;
        }
      }
    }
  }

  /** Where the parts of the descriptor event stand. */
  lemma DescriptorParts(m: Memory, d: Descriptor)
    requires Holds(m, 0, EncodeDescriptor(d)) && DescriptorShape(d)
    ensures U32(m, 0) == 0 && U32(m, 4) == NO_ACTION && U32(m, 28) == |EncodeSpecId(d)| && Holds(m, 32, EncodeSpecId(d))
    ensures |EncodeDescriptor(d)| == 32 + |EncodeSpecId(d)|
    ensures VENDOR_INFO_OFFSET <= |EncodeSpecId(d)| < 0x1000 && |EncodeSpecId(d)| >= DIGEST_SIZES_OFFSET + 4 * |d.sizes|
  {
    hide LittleEndian, U32, EncodeSpecId, Listed, SizeIn;
    SpecIdLength(d);
    SizesLength(d.sizes);
    var spec := EncodeSpecId(d);
    var t3 := LittleEndian(|spec|, 4) + spec;
    var t2 := d.digest + t3;
    var t1 := LittleEndian(NO_ACTION, 4) + t2;
    HoldsSplit(m, 0, LittleEndian(0, 4), t1);
    HoldsSplit(m, 4, LittleEndian(NO_ACTION, 4), t2);
    HoldsSplit(m, 8, d.digest, t3);
    HoldsSplit(m, 28, LittleEndian(|spec|, 4), spec);
    Held32(m, 0, 0);
    Held32(m, 4, NO_ACTION);
    Held32(m, 28, |spec|);
  }

  lemma SpecIdLength(d: Descriptor)
    ensures |EncodeSpecId(d)| == 29 + |EncodeSizes(d.sizes)| + |d.vendorInfo|
  {
    hide LittleEndian, EncodeSizes;
  }

  /** Init on a well-formed log recognizes the format and the algorithm and stands on the first event. */
  lemma InitOntoFirst(m: Memory, d: Descriptor, es: seq<LogEvent>, logSize: nat, previous: Iter, beyond: nat -> bv32)
    requires DescriptorOk(d) && es != [] && EventOk(d, es[0])
    requires Holds(m, 0, EncodeLog(d, es)) && |EncodeLog(d, es)| <= logSize < UINT32_LIMIT
    ensures var (hr, it) := Init(m, logSize, previous, beyond);
            && hr == S_OK && LogHeld(m, it.log, d) && it.log.logSize == logSize
            && OnEvent(it, |EncodeDescriptor(d)|, es[0])
  {
    hide LittleEndian, U32, U16, EncodeSpecId, EncodeDescriptor, EncodeEvent, EncodeSizes, Listed, SizeIn, SupportedFrom, Holds, Move,
      HasSignature, EventOk;
    var head := |EncodeDescriptor(d)|;
    HoldsSplit(m, 0, EncodeDescriptor(d), EncodeEvents(es));
    HoldsSplit(m, head, EncodeEvent(es[0]), EncodeEvents(es[1..]));
    DescriptorParts(m, d);
    SpecIdParts(m, 32, d);
    SupportedIs(m, 32 + DIGEST_SIZES_OFFSET, d.sizes, |d.sizes|, 0, beyond);
    var supported := SupportedFrom(m, 32 + DIGEST_SIZES_OFFSET, |d.sizes|, 0, beyond);
    var log := Selected(LegacyLog(logSize).(agile := true, numberOfDigests := |d.sizes|, digestSizes := 32 + DIGEST_SIZES_OFFSET),
                        supported);
    assert LogHeld(m, log, d);
    MoveOnto(m, Iter(log, Some(0), head), d, es[0], head);
  }

  /** Init refuses a log with a descriptor as not supported exactly if its version is too old or it lists
      neither SHA-256 nor SHA-1. */
  lemma NotSupportedIff(m: Memory, d: Descriptor, logSize: nat, previous: Iter, beyond: nat -> bv32)
    requires DescriptorShape(d) && Holds(m, 0, EncodeDescriptor(d)) && |EncodeDescriptor(d)| <= logSize < UINT32_LIMIT
    ensures Init(m, logSize, previous, beyond).0 == NOT_SUPPORTED <==> !DescriptorSupported(d)
  {
    hide LittleEndian, U32, U16, EncodeSpecId, EncodeDescriptor, EncodeSizes, Listed, SupportedFrom, Holds, Move, HasSignature;
    DescriptorParts(m, d);
    SpecIdParts(m, 32, d);
    SupportedIs(m, 32 + DIGEST_SIZES_OFFSET, d.sizes, |d.sizes|, 0, beyond);
  }

  /** The iterator on a well-formed log, with whatever follows it in the same area: Init and moving until
      the end yield the encoded events, in order, each with its PCR index, type, selected digest and
      data, and nothing else exactly if no further element stands behind them. A remainder that is too
      short for one is passed over. */
  lemma LogReadsBack(m: Memory, d: Descriptor, es: seq<LogEvent>, logSize: nat, previous: Iter, beyond: nat -> bv32)
    requires DescriptorOk(d) && es != [] && forall i | 0 <= i < |es| :: EventOk(d, es[i])
    requires Holds(m, 0, EncodeLog(d, es)) && |EncodeLog(d, es)| <= logSize < UINT32_LIMIT
    ensures var (hr, it) := Init(m, logSize, previous, beyond);
            var walk, end := Walk(m, it), |EncodeLog(d, es)|;
            && hr == S_OK && |walk| >= |es| && walk[..|es|] == ExpectedAll(d, es)
            && (walk == ExpectedAll(d, es) <==> NothingAt(m, it.log, end))
            && (logSize < end + 18 + PreferredSize(d) ==> walk == ExpectedAll(d, es))
  {
    hide EncodeDescriptor, EncodeEvent, EventOk, Holds, Init, Walk, LogHeld, DescriptorOk, NothingAt, Expected;
    InitOntoFirst(m, d, es, logSize, previous, beyond);
    var it := Init(m, logSize, previous, beyond).1;
    HoldsSplit(m, 0, EncodeDescriptor(d), EncodeEvents(es));
    WalkEvents(m, it, d, es, |EncodeDescriptor(d)|);
    if logSize < |EncodeLog(d, es)| + 18 + PreferredSize(d) {
      ShortRemainder(m, it.log, d, |EncodeLog(d, es)|);
    }
    assert |ExpectedAll(d, es)| == |es|;
    assert Walk(m, it)[..|Walk(m, it)|] == Walk(m, it);
  }

  lemma ShortRemainder(m: Memory, log: Layout, d: Descriptor, end: nat)
    requires LogHeld(m, log, d) && log.logSize < end + 18 + PreferredSize(d)
    ensures NothingAt(m, log, end)
  {
    hide Listed, ElementSize;
  }

  /** A log for which the 32-bit sum wraps: 32 bytes whose data size field is close to 2^32. The
      iterator accepts it with an element of 16 bytes whose data would be far larger than the log. */
  lemma WrappedElement(previous: Iter, beyond: nat -> bv32)
    ensures var m: Memory := p => if p == 28 then 0xF0 else if 29 <= p < 32 then 0xFF else 1;
            var (hr, it) := Init(m, 32, previous, beyond);
            && hr == S_OK && it.current == Some(0) && it.currentSize == 16
            && DataSize(m, it.log, 0) == 0xFFFF_FFF0 > it.log.logSize
  {}
}
