/** The replay of a measured-boot log into software PCRs (PcpToolDisplayLog in Support.cpp). */
module SoftPcrs {
  import opened Bytes
  import opened CryptoModel
  import opened Wrappers
  import opened WbclLog
  import opened WbclIterators
  import opened WbclRoundTrip
  import opened SipaWalks

  const PCRS := 24
  const MAX_DIGEST_SIZE := 64
  const EV_NO_ACTION := 3
  const EV_EVENT_TAG := 6

  /** PCRs 17 to 22 start with all bits set, the others with zeros. */
  function InitialRow(n: nat): (r: ByteVec)
    ensures |r| == MAX_DIGEST_SIZE
  {
    seq(MAX_DIGEST_SIZE, _ => if 17 <= n < 23 then 0xFF else 0)
  }

  /** The PCR table and which PCRs were extended. */
  datatype Table = Table(rows: seq<ByteVec>, used: seq<bool>)

  predicate TableOk(t: Table) {
    |t.rows| == |t.used| == PCRS && forall n | 0 <= n < PCRS :: |t.rows[n]| == MAX_DIGEST_SIZE
  }

  function InitialTable(): (t: Table)
    ensures TableOk(t)
  {
    Table(seq(PCRS, n requires 0 <= n < PCRS => InitialRow(n)), seq(PCRS, _ => false))
  }

  predicate HashesFit(c: Crypto, log: Layout) {
    c.hashLen(log.hashAlgorithm) == log.digestSize <= MAX_DIGEST_SIZE
  }

  /** One extend of a PCR: the digest replaces the start of the row. */
  function ExtendRow(c: Crypto, log: Layout, row: ByteVec, digest: ByteVec): ByteVec
    requires log.digestSize <= |row|
  {
    c.hash(log.hashAlgorithm, row[..log.digestSize] + digest) + row[log.digestSize..]
  }

  function Extended(c: Crypto, log: Layout, t: Table, s: Seen): (t': Table)
    requires c.Valid() && HashesFit(c, log) && TableOk(t)
    ensures TableOk(t')
  {
    if s.pcr >= PCRS then t
    else Table(t.rows[s.pcr := ExtendRow(c, log, t.rows[s.pcr], s.digest)], t.used[s.pcr := true])
  }

  /** All events of a log in order. */
  function Replay(c: Crypto, log: Layout, t: Table, seen: seq<Seen>): (t': Table)
    requires c.Valid() && HashesFit(c, log) && TableOk(t)
    ensures TableOk(t')
    decreases |seen|
  {
    if seen == [] then t else Replay(c, log, Extended(c, log, t, seen[0]), seen[1..])
  }

  /** Whether the data of an event are decoded as TLV records. */
  predicate IsSipa(s: Seen) {
    (12 <= s.pcr <= 14 || s.pcr == 0xFFFF_FFFF) && (s.kind == EV_EVENT_TAG || s.kind == EV_NO_ACTION)
  }

  predicate Decodes(isContainer: nat -> bool, s: Seen, level: nat) {
    IsSipa(s) ==> SipaWalks.Walk(isContainer, s.data, level).0
  }

  /** The loop of PcpToolDisplayLog from the current element on. */
  function Display(c: Crypto, isContainer: nat -> bool, m: Memory, it: Iter, level: nat, t: Table): (r: (HResult, Table))
    requires c.Valid() && HashesFit(c, it.log) && TableOk(t)
    ensures TableOk(r.1)
    decreases it.log.logSize - (if it.current.Some? then it.current.value else it.log.logSize), if AtEnd(it) then 0 else 1
  {
    if AtEnd(it) then (E_INVALIDARG, t) else
    var s := SeenAt(m, it.log, it.current.value);
    if !Decodes(isContainer, s, level) then (E_INVALIDARG, t) else
    var t' := Extended(c, it.log, t, s);
    MoveIsSafe(m, it);
    if Move(m, it).0 == S_OK then Display(c, isContainer, m, Move(m, it).1, level, t') else (S_OK, t')
  }

  /** Every element that is visited carries a digest of the selected algorithm. */
  predicate DigestsFound(m: Memory, it: Iter)
    decreases it.log.logSize - (if it.current.Some? then it.current.value else it.log.logSize), if AtEnd(it) then 0 else 1
  {
    AtEnd(it) ||
    (MoveIsSafe(m, it);
     Digest(m, it.log, it.current.value).Some? && (Move(m, it).0 == S_OK ==> DigestsFound(m, Move(m, it).1)))
  }

  // ---------- the code ----------

  /** The arrays softPCR and usedPcr. */
  class PcrBank {
    const softPcr: array<ByteVec>
    const usedPcr: array<bool>

    constructor ()
      ensures Contents() == InitialTable() && Valid() && fresh(softPcr) && fresh(usedPcr)
      ensures forall n, i | 0 <= n < 24 && 0 <= i < 64 :: Contents().rows[n][i] == if 17 <= n <= 22 then 0xFF else 0
    {
      softPcr := new ByteVec[PCRS](_ => Zeros(MAX_DIGEST_SIZE));
      usedPcr := new bool[PCRS](_ => false);
      new;
      var n := 17;
      while n < 23
        invariant 17 <= n <= 23 && softPcr.Length == PCRS && usedPcr.Length == PCRS
        invariant forall k | 0 <= k < PCRS :: softPcr[k] == (if 17 <= k < n then InitialRow(k) else Zeros(MAX_DIGEST_SIZE)) && !usedPcr[k]
      {
        softPcr[n] := seq(MAX_DIGEST_SIZE, _ => 0xFF);
        assert softPcr[n] == InitialRow(n);
        n := n + 1;
      }
      assert Zeros(MAX_DIGEST_SIZE) == InitialRow(0);
      assert softPcr[..] == InitialTable().rows;
      assert usedPcr[..] == InitialTable().used;
    }

    ghost predicate Valid()
      reads this, softPcr, usedPcr
    {
      softPcr.Length == PCRS && usedPcr.Length == PCRS && TableOk(Contents())
    }

    function Contents(): Table
      reads this, softPcr, usedPcr
    {
      Table(softPcr[..], usedPcr[..])
    }

    /** Extends one PCR in place. */
    method Extend(c: Crypto, iterator_: WbclIterator, pcrIndex: nat, digest: nat)
      requires c.Valid() && Valid() && HashesFit(c, iterator_.Log())
      modifies softPcr, usedPcr
      ensures Valid()
      ensures forall s: Seen | s.pcr == pcrIndex && s.digest == Stretch(iterator_.memory, digest, iterator_.digestSize) ::
                Contents() == Extended(c, iterator_.Log(), old(Contents()), s)
    {
      if pcrIndex < PCRS {
        var row := softPcr[pcrIndex];
        var extendBuffer := row[..iterator_.digestSize] + Stretch(iterator_.memory, digest, iterator_.digestSize);
        softPcr[pcrIndex] := c.hash(iterator_.hashAlgorithm, extendBuffer) + row[iterator_.digestSize..];
        usedPcr[pcrIndex] := true;
      }
    }
  }

  /** PcpToolDisplayLog without the printing: decodes and replays the log of `cb` bytes. */
  method DisplayLog(c: Crypto, isContainer: nat -> bool, m: Memory, cb: nat, level: nat, beyond: nat -> bv32, wbcl: WbclIterator)
    returns (hr: HResult, bank: PcrBank)
    requires c.Valid() && c.hashLen(ALG_SHA1) == SHA1_DIGEST_SIZE && c.hashLen(ALG_SHA256) == SHA256_DIGEST_SIZE
    requires wbcl.memory == m
    requires cb >= EVENT_STRUCT_SIZE && Init(m, cb, wbcl.State(), beyond).0 == S_OK ==> DigestsFound(m, Init(m, cb, wbcl.State(), beyond).1)
    modifies wbcl
    ensures fresh(bank) && bank.Valid()
    ensures var (h, it) := Init(m, cb, old(wbcl.State()), beyond);
            if cb < EVENT_STRUCT_SIZE then hr == E_INVALIDARG
            else if h != S_OK then hr == h
            else HashesFit(c, it.log) && (hr, bank.Contents()) == Display(c, isContainer, m, it, level + 3, InitialTable())
  {
    bank := new PcrBank();
    if cb < EVENT_STRUCT_SIZE {
      return E_INVALIDARG, bank;
    }
    hr := wbcl.InitIterator(cb, beyond);
    if hr != S_OK {
      return;
    }
    InitAlgorithm(m, cb, old(wbcl.State()), beyond);
    InitIsSafe(m, cb, old(wbcl.State()), beyond);
    hr := ReplayLog(c, isContainer, m, level, wbcl, bank);
  }

  /** The event loop. */
  method ReplayLog(c: Crypto, isContainer: nat -> bool, m: Memory, level: nat, wbcl: WbclIterator, bank: PcrBank) returns (hr: HResult)
    requires c.Valid() && bank.Valid() && wbcl.memory == m && HashesFit(c, wbcl.Log())
    requires Positioned(m, wbcl.State()) || AtEnd(wbcl.State())
    requires DigestsFound(m, wbcl.State())
    modifies wbcl`currentElement, wbcl`currentElementSize, bank.softPcr, bank.usedPcr
    ensures bank.Valid()
    ensures (hr, bank.Contents()) == Display(c, isContainer, m, old(wbcl.State()), level + 3, old(bank.Contents()))
  {
    hide Display, DigestsFound, Move, SeenAt, Extended, Decodes, Positioned, TableOk;
    ghost var log, all := wbcl.Log(), Display(c, isContainer, m, wbcl.State(), level + 3, bank.Contents());
    hr := S_OK;
    while hr == S_OK
      invariant (hr == S_OK || hr == S_FALSE) && bank.Valid() && wbcl.Log() == log
      invariant hr == S_OK ==> all == Display(c, isContainer, m, wbcl.State(), level + 3, bank.Contents())
      invariant hr == S_OK ==> DigestsFound(m, wbcl.State()) && (Positioned(m, wbcl.State()) || AtEnd(wbcl.State()))
      invariant hr == S_FALSE ==> all == (S_OK, bank.Contents())
      decreases if hr == S_OK then 1 else 0, Remaining(wbcl.State())
    {
      ghost var it := wbcl.State();
      var pcrIndex, eventType, digest, dataSize, data;
      hr, pcrIndex, eventType, digest, dataSize, data := wbcl.GetCurrentElement();
      DisplayStep(c, isContainer, m, it, level + 3, bank.Contents());
      if hr != S_OK {
        return;
      }
      MoveIsSafe(m, it);
      ghost var s := SeenAt(m, log, it.current.value);
      SeenParts(m, log, it.current.value);
      var eventData := if data.None? then [] else Stretch(m, data.value, dataSize);
      var ok := ShowEvent(isContainer, level, pcrIndex, eventType, eventData, s);
      if !ok {
        return E_INVALIDARG;
      }
      bank.Extend(c, wbcl, pcrIndex, digest.value);
      hr := wbcl.MoveToNextElement();
    }
    hr := S_OK;
  }

  /** The TLV records in the data of the boot environment's events. */
  method ShowEvent(isContainer: nat -> bool, level: nat, pcrIndex: nat, eventType: nat, eventData: ByteVec, ghost s: Seen)
    returns (ok: bool)
    requires s.pcr == pcrIndex && s.kind == eventType && s.data == eventData
    ensures ok == Decodes(isContainer, s, level + 3)
  {
    hide SipaWalks.Walk;
    ok := true;
    if ((pcrIndex >= 12 && pcrIndex <= 14) || pcrIndex == 0xFFFF_FFFF) && (eventType == EV_EVENT_TAG || eventType == EV_NO_ACTION) {
      var visits;
      ok, visits := DisplaySipa(isContainer, eventData, 0, |eventData|, level + 3);
      assert eventData[0..0 + |eventData|] == eventData;
    }
  }

  function Remaining(it: Iter): nat {
    if it.current.None? || it.currentSize == 0 || it.current.value > it.log.logSize then 0 else 1 + it.log.logSize - it.current.value
  }

  lemma SeenParts(m: Memory, log: Layout, p: nat)
    requires Digest(m, log, p).Some?
    ensures var s := SeenAt(m, log, p);
            && s.pcr == U32(m, p) && s.kind == U32(m, p + 4) && s.digest == Stretch(m, Digest(m, log, p).value, log.digestSize)
            && s.data == match Data(m, log, p) case None => [] case Some(o) => Stretch(m, o, DataSize(m, log, p))
  {
    hide Digest, Data, DataSize, U32;
  }

  /** One round of the event loop. */
  lemma DisplayStep(c: Crypto, isContainer: nat -> bool, m: Memory, it: Iter, level: nat, t: Table)
    requires c.Valid() && HashesFit(c, it.log) && TableOk(t) && DigestsFound(m, it)
    ensures var r := Display(c, isContainer, m, it, level, t);
            if AtEnd(it) then r == (E_INVALIDARG, t) else
            && Digest(m, it.log, it.current.value).Some?
            && var s := SeenAt(m, it.log, it.current.value);
               if !Decodes(isContainer, s, level) then r == (E_INVALIDARG, t)
               else
                 var (hr, next) := Move(m, it);
                 next.log == it.log && r == (if hr == S_OK then Display(c, isContainer, m, next, level, Extended(c, it.log, t, s))
                                             else (S_OK, Extended(c, it.log, t, s)))
                 && (hr == S_OK ==> DigestsFound(m, next))
  {
    hide Extended, SeenAt, Decodes, Digest, ElementSize;
    if !AtEnd(it) {
      MoveIsSafe(m, it);
    }
  }

  /** The algorithm is SHA-256 or SHA-1, with its digest size. */
  lemma InitAlgorithm(m: Memory, cb: nat, previous: Iter, beyond: nat -> bv32)
    requires Init(m, cb, previous, beyond).0 == S_OK
    ensures var log := Init(m, cb, previous, beyond).1.log;
            (log.hashAlgorithm, log.digestSize) in {(ALG_SHA256, SHA256_DIGEST_SIZE), (ALG_SHA1, SHA1_DIGEST_SIZE)}
  {
    hide U16, U32, HasSignature, SupportedFrom, ElementSize;
  }
}
