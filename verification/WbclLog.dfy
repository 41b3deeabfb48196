/** The measured-boot log as bytes: the walkers of PCPWbcl.cpp as functions of memory and iterator.
    Positions are offsets from the start of the log buffer; what lies behind the log is arbitrary,
    because some reads are not checked against the end of the log. */
module WbclLog {
  import opened Bytes
  import opened Wrappers

  type Memory = nat -> byte

  const SHA1_DIGEST_SIZE := 20
  const SHA256_DIGEST_SIZE := 32
  const ALG_SHA1 := 0x4
  const ALG_SHA256 := 0xB
  const ALG_SHA384 := 0xC
  const ALG_SHA512 := 0xD
  const MAX_NUMBER_OF_DIGESTS := 5
  const NO_ACTION := 3
  const UINT32_LIMIT := 0x1_0000_0000

  /** sizeof(TCG_PCClientPCREventStruct) with one byte of event data. */
  const EVENT_STRUCT_SIZE := 33
  /** Offsets in TCG_EfiSpecIDEventStruct. */
  const VERSION_MINOR_OFFSET := 20
  const VERSION_MAJOR_OFFSET := 21
  const ALGORITHMS_OFFSET := 24
  const DIGEST_SIZES_OFFSET := 28
  const VENDOR_INFO_OFFSET := 33

  const SIGNATURE: ByteVec :=
    [0x53, 0x70, 0x65, 0x63, 0x20, 0x49, 0x44, 0x20, 0x45, 0x76, 0x65, 0x6e, 0x74, 0x30, 0x33, 0x00]

  datatype HResult = S_OK | S_FALSE | E_INVALIDARG | INVALID_DATA | NOT_SUPPORTED

  /** What a WBCL_Iterator knows of the log; `agile` is the log format. */
  datatype Layout = Layout(
    logSize: nat, digestSize: nat, agile: bool, numberOfDigests: nat, digestSizes: nat, hashAlgorithm: nat)

  datatype Iter = Iter(log: Layout, current: Option<nat>, currentSize: nat)

  function U16(m: Memory, p: nat): nat {
    m(p) as int + 0x100 * m(p + 1) as int
  }

  function U32(m: Memory, p: nat): (n: nat)
    ensures n < UINT32_LIMIT
  {
    m(p) as int + 0x100 * m(p + 1) as int + 0x1_0000 * m(p + 2) as int + 0x100_0000 * m(p + 3) as int
  }

  // ---------- the walkers ----------

  /** WbclGetDigestSize from entry `i` of the table on. An algorithm that is not in the table has
      the size of a SHA-1 digest. */
  function TableSize(m: Memory, log: Layout, alg: nat, i: nat): nat
    decreases log.numberOfDigests - i
  {
    if i >= log.numberOfDigests then SHA1_DIGEST_SIZE
    else if U16(m, log.digestSizes + 4 * i) == alg then U16(m, log.digestSizes + 4 * i + 2)
    else TableSize(m, log, alg, i + 1)
  }

  function DigestSizeOf(m: Memory, log: Layout, alg: nat): nat {
    TableSize(m, log, alg, 0)
  }

  /** The size of `n` digests from `p` on added to `size`, unless they run out of the log. */
  function MeasureFrom(m: Memory, log: Layout, p: nat, n: nat, size: nat): Option<nat>
    decreases n
  {
    if n == 0 then Some(size) else
    var tpmtHaSize := DigestSizeOf(m, log, U16(m, p)) + 2;
    if p + tpmtHaSize > log.logSize then None else MeasureFrom(m, log, p + tpmtHaSize, n - 1, size + tpmtHaSize)
  }

  /** WbclGetCurrentElementDigestSize for the element at `p`. */
  function Measured(m: Memory, log: Layout, p: nat): Option<nat> {
    if !log.agile then Some(SHA1_DIGEST_SIZE)
    else if U32(m, p + 8) > MAX_NUMBER_OF_DIGESTS then None
    else MeasureFrom(m, log, p + 12, U32(m, p + 8), 4)
  }

  /** WbclGetCurrentElementDataSize. */
  function DataSize(m: Memory, log: Layout, p: nat): nat {
    match Measured(m, log, p)
    case None => 0
    case Some(size) => U32(m, p + 8 + size)
  }

  /** WbclGetCurrentElementSize: the sum is a UINT32. */
  function ElementSize(m: Memory, log: Layout, p: nat): Option<nat> {
    match Measured(m, log, p)
    case None => None
    case Some(size) => Some((8 + size + 4 + DataSize(m, log, p)) % UINT32_LIMIT)
  }

  /** WbclGetCurrentElementData. */
  function Data(m: Memory, log: Layout, p: nat): Option<nat> {
    match Measured(m, log, p)
    case None => None
    case Some(size) => if DataSize(m, log, p) == 0 then None else Some(p + 8 + size + 4)
  }

  /** The first of `n` digests from `p` on that has the iterator's algorithm. */
  function FindDigest(m: Memory, log: Layout, p: nat, n: nat): Option<nat>
    decreases n
  {
    if n == 0 then None
    else if U16(m, p) == log.hashAlgorithm then Some(p + 2)
    else
      var next := p + 2 + DigestSizeOf(m, log, U16(m, p));
      if next > log.logSize then None else FindDigest(m, log, next, n - 1)
  }

  /** WbclGetCurrentElementDigest. */
  function Digest(m: Memory, log: Layout, p: nat): Option<nat> {
    if !log.agile then Some(p + 8)
    else if U32(m, p + 8) > MAX_NUMBER_OF_DIGESTS then None
    else FindDigest(m, log, p + 12, U32(m, p + 8))
  }

  function MinimumSize(log: Layout): nat {
    if log.agile then 18 + log.digestSize else 12 + SHA1_DIGEST_SIZE
  }

  /** WbclApiMoveToNextElement. */
  function Move(m: Memory, it: Iter): (HResult, Iter) {
    if AtEnd(it) then (S_OK, it) else
    var end := Iter(it.log, None, 0);
    var next := it.current.value + it.currentSize;
    if next + MinimumSize(it.log) > it.log.logSize then (S_FALSE, end) else
    match ElementSize(m, it.log, next)
    case None => (S_FALSE, end)
    case Some(size) =>
      if next + size > it.log.logSize then (S_FALSE, end) else (S_OK, Iter(it.log, Some(next), size))
  }

  /** No current element, or one whose size came out as zero because the 32-bit sum wrapped. */
  predicate AtEnd(it: Iter) {
    it.current.None? || it.currentSize == 0
  }

  // ---------- initialization ----------

  /** The bits of g_WbclAlgotihmIdToBitmapTable. `beyond` stands for what lies behind the table, which
      is read for algorithm ids above that of SHA-512. */
  function AlgorithmBit(alg: nat, beyond: nat -> bv32): bv32 {
    if alg == ALG_SHA1 then 1
    else if alg == ALG_SHA256 then 2
    else if alg == ALG_SHA384 then 4
    else if alg == ALG_SHA512 then 8
    else if alg > ALG_SHA512 then beyond(alg)
    else 0
  }

  function Or(a: bv32, b: bv32): bv32 {
    a | b
  }

  /** The bits of the table entries from `i` on. */
  function SupportedFrom(m: Memory, sizes: nat, n: nat, i: nat, beyond: nat -> bv32): bv32
    decreases n - i
  {
    if i >= n then 0 else Or(AlgorithmBit(U16(m, sizes + 4 * i), beyond), SupportedFrom(m, sizes, n, i + 1, beyond))
  }

  /** strcmp against the signature: the bytes are the signature, its terminating zero included. */
  predicate HasSignature(m: Memory, p: nat) {
    forall i | 0 <= i < |SIGNATURE| :: m(p + i) == SIGNATURE[i]
  }

  function LegacyLog(logSize: nat): Layout {
    Layout(logSize, SHA1_DIGEST_SIZE, false, 0, 0, ALG_SHA1)
  }

  /** What WbclApiInitIterator does with a log descriptor whose event data is at `p`. */
  function InitAgile(m: Memory, it: Iter, p: nat, dataSize: nat, beyond: nat -> bv32): (HResult, Iter) {
    var major, minor := m(p + VERSION_MAJOR_OFFSET), m(p + VERSION_MINOR_OFFSET);
    var n := U32(m, p + ALGORITHMS_OFFSET);
    if major < 1 || (major == 1 && minor < 2) then (NOT_SUPPORTED, it)
    else if dataSize < DIGEST_SIZES_OFFSET then (NOT_SUPPORTED, it)
    else if n > MAX_NUMBER_OF_DIGESTS then (NOT_SUPPORTED, it)
    else if dataSize < DIGEST_SIZES_OFFSET + 4 * n then (INVALID_DATA, it)
    else
      var sizes := p + DIGEST_SIZES_OFFSET;
      var supported := SupportedFrom(m, sizes, n, 0, beyond);
      var log := it.log.(agile := true, numberOfDigests := n, digestSizes := sizes);
      if supported & 2 == 0 && supported & 1 == 0 then (NOT_SUPPORTED, it.(log := log))
      else
        var (hr, it') := Move(m, it.(log := Selected(log, supported)));
        (if hr == S_OK then S_OK else INVALID_DATA, it')
  }

  /** The log with the preferred algorithm among the supported ones. */
  function Selected(log: Layout, supported: bv32): Layout {
    if supported & 2 != 0 then log.(hashAlgorithm := ALG_SHA256, digestSize := SHA256_DIGEST_SIZE)
    else log.(hashAlgorithm := ALG_SHA1, digestSize := SHA1_DIGEST_SIZE)
  }

  /** WbclApiInitIterator; `previous` is what the iterator held before. */
  function Init(m: Memory, logSize: nat, previous: Iter, beyond: nat -> bv32): (HResult, Iter) {
    if logSize < EVENT_STRUCT_SIZE - 1 then (E_INVALIDARG, previous) else
    var size := (8 + SHA1_DIGEST_SIZE + 4 + U32(m, 28)) % UINT32_LIMIT;
    var it := Iter(LegacyLog(logSize), Some(0), size);
    if logSize < size then (INVALID_DATA, it.(currentSize := previous.currentSize))
    else if size == 0 then (INVALID_DATA, it)
    else if U32(m, 0) == 0 && U32(m, 4) == NO_ACTION && U32(m, 28) >= VENDOR_INFO_OFFSET && HasSignature(m, 32) then
      InitAgile(m, it, 32, U32(m, 28), beyond)
    else (S_OK, it)
  }

  // ---------- every accepted log ----------

  /** The current element lies in the log, at least up to its data, and its size is what the walkers
      say it is. */
  predicate Positioned(m: Memory, it: Iter) {
    && it.current.Some? && it.currentSize > 0
    && it.current.value + it.currentSize <= it.log.logSize
    && it.current.value + MinimumSize(it.log) <= it.log.logSize
    && ElementSize(m, it.log, it.current.value) == Some(it.currentSize)
  }

  /** Each move strictly advances and keeps the element inside the log, or ends the iteration. */
  lemma MoveIsSafe(m: Memory, it: Iter)
    requires !AtEnd(it)
    ensures var (hr, it') := Move(m, it);
            && it'.log == it.log && (hr == S_OK || hr == S_FALSE)
            && (hr == S_FALSE ==> it'.current.None? && it'.currentSize == 0)
            && (hr == S_OK ==>
                  && it'.current == Some(it.current.value + it.currentSize)
                  && it.current.value < it'.current.value <= it.log.logSize
                  && (Positioned(m, it') || it'.currentSize == 0))
  {
    hide Measured, DataSize;
  }

  /** After the end the iterator stays where it is. The first call reports S_FALSE, later ones S_OK. */
  lemma EndIsSticky(m: Memory, it: Iter)
    ensures AtEnd(it) ==> Move(m, it) == (S_OK, it)
    ensures Move(m, it).0 == S_FALSE ==> Move(m, Move(m, it).1) == (S_OK, Move(m, it).1)
  {
    hide ElementSize;
  }

  lemma {:induction false} MeasureGrows(m: Memory, log: Layout, p: nat, n: nat, size: nat)
    ensures var r := MeasureFrom(m, log, p, n, size);
            r.Some? ==> r.value >= size + 2 * n && (n > 0 ==> p + (r.value - size) <= log.logSize)
    decreases n
  {
    hide DigestSizeOf;
    if n > 0 {
      var d := DigestSizeOf(m, log, U16(m, p)) + 2;
      if p + d <= log.logSize {
        MeasureGrows(m, log, p + d, n - 1, size + d);
      }
    }
  }

  /** The parts of a positioned element: the data end exactly where the element ends if and only if
      the 32-bit sum of the sizes did not wrap. */
  lemma DataEndsElement(m: Memory, it: Iter)
    requires Positioned(m, it)
    ensures var p := it.current.value;
            && Measured(m, it.log, p).Some?
            && var size := Measured(m, it.log, p).value;
               var data := DataSize(m, it.log, p);
               && p + 8 + size <= it.log.logSize
               && (Data(m, it.log, p) == if data == 0 then None else Some(p + 12 + size))
               && (p + 12 + size + data == p + it.currentSize <==> 12 + size + data < UINT32_LIMIT)
  {
    hide U16, U32, DigestSizeOf;
    var p := it.current.value;
    if it.log.agile {
      MeasureGrows(m, it.log, p + 12, U32(m, p + 8), 4);
    }
  }

  lemma {:induction false} FoundInside(m: Memory, log: Layout, p: nat, n: nat, size: nat)
    requires FindDigest(m, log, p, n).Some? && MeasureFrom(m, log, p, n, size).Some?
    ensures var o := FindDigest(m, log, p, n).value;
            p + 2 <= o && o + DigestSizeOf(m, log, log.hashAlgorithm) <= p + (MeasureFrom(m, log, p, n, size).value - size)
    decreases n
  {
    hide DigestSizeOf;
    var d := DigestSizeOf(m, log, U16(m, p)) + 2;
    MeasureGrows(m, log, p + d, n - 1, size + d);
    if U16(m, p) != log.hashAlgorithm {
      FoundInside(m, log, p + d, n - 1, size + d);
    }
  }

  /** The walk that looks up a digest and the walk that measures the digests agree: a digest that is
      found lies wholly inside the measured digest area, and inside the log. */
  lemma DigestInsideArea(m: Memory, it: Iter)
    requires Positioned(m, it) && Digest(m, it.log, it.current.value).Some?
    ensures var p, o := it.current.value, Digest(m, it.log, it.current.value).value;
            && Measured(m, it.log, p).Some? && p + 8 <= o
            && var size := Measured(m, it.log, p).value;
               && (if it.log.agile then o + DigestSizeOf(m, it.log, it.log.hashAlgorithm) <= p + 8 + size
                   else o + SHA1_DIGEST_SIZE == p + 8 + size)
               && p + 8 + size <= it.log.logSize
  {
    hide U16, DigestSizeOf, U32;
    var p := it.current.value;
    DataEndsElement(m, it);
    if it.log.agile {
      FoundInside(m, it.log, p + 12, U32(m, p + 8), 4);
    }
  }

  /** Init leaves a state from which this goes on, or reports an error. */
  lemma InitIsSafe(m: Memory, logSize: nat, previous: Iter, beyond: nat -> bv32)
    ensures var (hr, it) := Init(m, logSize, previous, beyond);
            hr == S_OK ==> it.log.logSize == logSize && it.current.Some? && (Positioned(m, it) || it.currentSize == 0)
  {
    hide U16, U32, HasSignature, SupportedFrom, Selected;
    SelectedSize();
  }

  lemma SelectedSize()
    ensures forall log, supported :: Selected(log, supported).logSize == log.logSize
  {}

  // ---------- whole iterations ----------

  /** The states with a current element, from `it` on. The iteration is finite because each move
      advances. */
  function States(m: Memory, it: Iter): seq<Iter>
    decreases it.log.logSize - (if it.current.Some? then it.current.value else it.log.logSize), if AtEnd(it) then 0 else 1
  {
    if AtEnd(it) then [] else
    MoveIsSafe(m, it);
    [it] + (if Move(m, it).0 == S_OK then States(m, Move(m, it).1) else [])
  }

  /** One element after the other, without gap or overlap. */
  predicate Consecutive(ss: seq<Iter>) {
    forall i | 0 <= i < |ss| - 1 :: ss[i].current.Some? && ss[i + 1].current == Some(ss[i].current.value + ss[i].currentSize)
  }

  /** Whatever the bytes of the log: every element a caller gets to see lies inside it, and each one
      starts where the one before it ends. */
  lemma {:induction false} EveryElementInside(m: Memory, it: Iter)
    requires Positioned(m, it) || AtEnd(it)
    ensures var ss := States(m, it);
            && (forall i | 0 <= i < |ss| :: Positioned(m, ss[i]) && ss[i].log == it.log) && Consecutive(ss)
            && (!AtEnd(it) ==> |ss| >= 1 && ss[0] == it)
    decreases it.log.logSize - (if it.current.Some? then it.current.value else it.log.logSize), if AtEnd(it) then 0 else 1
  {
    hide ElementSize, Move;
    if !AtEnd(it) {
      MoveIsSafe(m, it);
      var (hr, next) := Move(m, it);
      if hr == S_OK {
        EveryElementInside(m, next);
      }
    }
  }
}
