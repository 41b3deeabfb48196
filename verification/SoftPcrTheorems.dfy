/** What the replay of a log computes: each PCR is the fold of extend over its own digests. */
module SoftPcrTheorems {
  import opened Bytes
  import opened CryptoModel
  import opened Wrappers
  import opened WbclLog
  import opened WbclRoundTrip
  import opened SipaWalks
  import opened SoftPcrs

  /** The digests a log extends into one PCR, in order. */
  function DigestsFor(seen: seq<Seen>, n: nat): seq<ByteVec> {
    if seen == [] then [] else (if seen[0].pcr == n then [seen[0].digest] else []) + DigestsFor(seen[1..], n)
  }

  /** Extending by one digest after the other. */
  function ExtendAll(c: Crypto, alg: nat, value: ByteVec, digests: seq<ByteVec>): ByteVec
    decreases |digests|
  {
    if digests == [] then value else ExtendAll(c, alg, c.Extend(alg, value, digests[0]), digests[1..])
  }

  /** For each PCR the replay depends on that PCR's digests alone. */
  lemma {:induction false} ReplayPerPcr(c: Crypto, log: Layout, t: Table, seen: seq<Seen>, n: nat)
    requires c.Valid() && HashesFit(c, log) && TableOk(t) && n < PCRS
    ensures var t', ds, size := Replay(c, log, t, seen), DigestsFor(seen, n), log.digestSize;
            && t'.rows[n] == ExtendAll(c, log.hashAlgorithm, t.rows[n][..size], ds) + t.rows[n][size..]
            && (t'.used[n] <==> t.used[n] || ds != [])
    decreases |seen|
  {
    hide CryptoModel.Crypto.Extend;
    var size := log.digestSize;
    if seen == [] {
      assert t.rows[n] == t.rows[n][..size] + t.rows[n][size..];
    } else {
      var t1 := Extended(c, log, t, seen[0]);
      ReplayPerPcr(c, log, t1, seen[1..], n);
      if seen[0].pcr == n {
        ExtendedRow(c, log, t.rows[n], seen[0].digest);
        assert DigestsFor(seen, n)[1..] == DigestsFor(seen[1..], n);
      } else {
        assert t1.rows[n] == t.rows[n] && t1.used[n] == t.used[n];
        assert DigestsFor(seen, n) == DigestsFor(seen[1..], n);
      }
    }
  }

  lemma ExtendedRow(c: Crypto, log: Layout, row: ByteVec, digest: ByteVec)
    requires c.Valid() && HashesFit(c, log) && log.digestSize <= |row|
    ensures var row', size := ExtendRow(c, log, row, digest), log.digestSize;
            row'[..size] == c.Extend(log.hashAlgorithm, row[..size], digest) && row'[size..] == row[size..]
  {}

  /** Reordering a log changes nothing as long as each PCR sees its digests in the same order. */
  lemma ReorderingIsInvisible(c: Crypto, log: Layout, a: seq<Seen>, b: seq<Seen>)
    requires c.Valid() && HashesFit(c, log)
    requires forall n | 0 <= n < PCRS :: DigestsFor(a, n) == DigestsFor(b, n)
    ensures Replay(c, log, InitialTable(), a) == Replay(c, log, InitialTable(), b)
  {
    hide InitialTable, Replay, DigestsFor, ExtendAll;
    var ta, tb := Replay(c, log, InitialTable(), a), Replay(c, log, InitialTable(), b);
    forall n | 0 <= n < PCRS
      ensures ta.rows[n] == tb.rows[n] && ta.used[n] == tb.used[n]
    {
      ReplayPerPcr(c, log, InitialTable(), a, n);
      ReplayPerPcr(c, log, InitialTable(), b, n);
    }
    assert ta.rows == tb.rows && ta.used == tb.used;
  }

  // ---------- from the bytes of a log ----------

  predicate AllDecode(isContainer: nat -> bool, seen: seq<Seen>, level: nat) {
    forall i | 0 <= i < |seen| :: Decodes(isContainer, seen[i], level)
  }

  lemma {:induction false} DisplayEvents(c: Crypto, isContainer: nat -> bool, m: Memory, it: Iter, d: Descriptor, es: seq<LogEvent>,
                                         p: nat, level: nat, t: Table)
    requires c.Valid() && HashesFit(c, it.log) && TableOk(t)
    requires LogHeld(m, it.log, d) && es != [] && (forall i | 0 <= i < |es| :: EventOk(d, es[i]))
    requires Holds(m, p, EncodeEvents(es)) && p + |EncodeEvents(es)| == it.log.logSize < UINT32_LIMIT
    requires OnEvent(it, p, es[0])
    ensures var seen, r := ExpectedAll(d, es), Display(c, isContainer, m, it, level, t);
            if AllDecode(isContainer, seen, level) then r == (S_OK, Replay(c, it.log, t, seen)) else r.0 == E_INVALIDARG
    ensures DigestsFound(m, it)
    decreases |es|
  {
    hide EncodeEvent, SeenAt, Expected, LogHeld, EventOk, Holds, ElementSize, MinimumSize, Decodes, Extended, TableOk, Digest;
    var e, rest := es[0], es[1..];
    HoldsSplit(m, p, EncodeEvent(e), EncodeEvents(rest));
    EventIs(m, it.log, d, e, p);
    EventHasDigest(m, it.log, d, e, p);
    var seen := ExpectedAll(d, es);
    assert seen[0] == Expected(d, e) && seen[1..] == ExpectedAll(d, rest);
    var t' := Extended(c, it.log, t, Expected(d, e));
    if rest == [] {
      NothingFollows(m, it);
      assert Replay(c, it.log, t, seen) == Replay(c, it.log, t', seen[1..]) == t';
    } else {
      var next := p + EventSize(e);
      HoldsSplit(m, next, EncodeEvent(rest[0]), EncodeEvents(rest[1..]));
      MoveOnto(m, it, d, rest[0], next);
      DisplayEvents(c, isContainer, m, Move(m, it).1, d, rest, next, level, t');
      DecodesNext(isContainer, seen, level);
    }
  }

  lemma DecodesNext(isContainer: nat -> bool, seen: seq<Seen>, level: nat)
    requires seen != []
    ensures AllDecode(isContainer, seen, level)
       <==> Decodes(isContainer, seen[0], level) && AllDecode(isContainer, seen[1..], level)
  {
    hide Decodes;
    if Decodes(isContainer, seen[0], level) && AllDecode(isContainer, seen[1..], level) {
      forall i | 0 <= i < |seen|
        ensures Decodes(isContainer, seen[i], level)
      {
        assert i > 0 ==> seen[i] == seen[1..][i - 1];
      }
    }
    if AllDecode(isContainer, seen, level) {
      forall i | 0 <= i < |seen[1..]|
        ensures Decodes(isContainer, seen[1..][i], level)
      {
        assert seen[1..][i] == seen[i + 1];
      }
    }
  }

  lemma EventHasDigest(m: Memory, log: Layout, d: Descriptor, e: LogEvent, p: nat)
    requires LogHeld(m, log, d) && EventOk(d, e) && Holds(m, p, EncodeEvent(e))
    requires p + |EncodeEvent(e)| <= log.logSize < UINT32_LIMIT
    ensures Digest(m, log, p).Some?
  {
    hide LittleEndian, U32, U16, EncodeDigests, Holds, FindDigest, Stretch, EncodeSizes, SizeIn, EncodeEvent, DigestOf;
    EventLength(e);
    EventParts(m, p, e);
    FindIs(m, log, d.sizes, e.digests, p + 12);
  }

  /** From the bytes of a well-formed log to its PCR values: if the TLV data decode, the display
      succeeds, and each PCR is the fold of extend, from its initial value, over the selected digests
      of the events logged for it. */
  lemma LogReplays(c: Crypto, isContainer: nat -> bool, m: Memory, d: Descriptor, es: seq<LogEvent>, previous: Iter,
                   beyond: nat -> bv32, level: nat, n: nat)
    requires c.Valid() && c.hashLen(ALG_SHA1) == SHA1_DIGEST_SIZE && c.hashLen(ALG_SHA256) == SHA256_DIGEST_SIZE
    requires DescriptorOk(d) && es != [] && (forall i | 0 <= i < |es| :: EventOk(d, es[i])) && n < PCRS
    requires Holds(m, 0, EncodeLog(d, es)) && |EncodeLog(d, es)| < UINT32_LIMIT
    ensures var (hr, it) := Init(m, |EncodeLog(d, es)|, previous, beyond);
            var seen, size := ExpectedAll(d, es), PreferredSize(d);
            && hr == S_OK && HashesFit(c, it.log) && DigestsFound(m, it)
            && var r := Display(c, isContainer, m, it, level, InitialTable());
               && (r.0 == S_OK <==> AllDecode(isContainer, seen, level))
               && (r.0 == S_OK ==>
                     && r.1.rows[n][..size] == ExtendAll(c, PreferredAlg(d), InitialRow(n)[..size], DigestsFor(seen, n))
                     && (r.1.used[n] <==> DigestsFor(seen, n) != []))
  {
    hide EncodeDescriptor, EncodeEvent, EventOk, Holds, Init, Display, DescriptorOk, TableHeld, DigestsFound, ExpectedAll, AllDecode, Replay,
      ExtendAll, DigestsFor, InitialTable, TableOk, InitialRow, EncodeEvents, LogHeld, HashesFit, OnEvent, PreferredAlg, PreferredSize,
      CryptoModel.Crypto.Valid;
    InitOntoFirst(m, d, es, |EncodeLog(d, es)|, previous, beyond);
    var it := Init(m, |EncodeLog(d, es)|, previous, beyond).1;
    HeldHashesFit(c, m, it.log, d);
    HoldsSplit(m, 0, EncodeDescriptor(d), EncodeEvents(es));
    DisplayEvents(c, isContainer, m, it, d, es, |EncodeDescriptor(d)|, level, InitialTable());
    InitialReplay(c, it.log, ExpectedAll(d, es), n);
  }

  lemma HeldHashesFit(c: Crypto, m: Memory, log: Layout, d: Descriptor)
    requires c.hashLen(ALG_SHA1) == SHA1_DIGEST_SIZE && c.hashLen(ALG_SHA256) == SHA256_DIGEST_SIZE && LogHeld(m, log, d)
    ensures HashesFit(c, log) && log.hashAlgorithm == PreferredAlg(d) && log.digestSize == PreferredSize(d)
  {
    hide TableHeld, DescriptorOk, Listed;
  }

  /** One PCR after the replay of a log from the initial table. */
  lemma InitialReplay(c: Crypto, log: Layout, seen: seq<Seen>, n: nat)
    requires c.Valid() && HashesFit(c, log) && n < PCRS
    ensures var t, size := Replay(c, log, InitialTable(), seen), log.digestSize;
            && t.rows[n][..size] == ExtendAll(c, log.hashAlgorithm, InitialRow(n)[..size], DigestsFor(seen, n))
            && (t.used[n] <==> DigestsFor(seen, n) != [])
  {
    hide Replay, ExtendAll, DigestsFor;
    ReplayPerPcr(c, log, InitialTable(), seen, n);
    ExtendAllLength(c, log.hashAlgorithm, InitialRow(n)[..log.digestSize], DigestsFor(seen, n));
  }

  lemma {:induction false} ExtendAllLength(c: Crypto, alg: nat, value: ByteVec, digests: seq<ByteVec>)
    requires c.Valid() && |value| == c.hashLen(alg)
    ensures |ExtendAll(c, alg, value, digests)| == c.hashLen(alg)
    decreases |digests|
  {
    if digests != [] {
      ExtendAllLength(c, alg, c.Extend(alg, value, digests[0]), digests[1..]);
    }
  }
}
